/**
 The derived figures of the `serverinfo` and `info` embeds (cogs/meta.py):
 channels counted per type with how many are locked to `@everyone`, the
 "Channels" lines, emoji tallies and the "Emoji" lines, the "Roles" field
 with its mention escaping, the "Voice" line and the shared-server count.
 */
module ServerInfo {
  import opened Outcomes
  import opened Strings
  import opened Numerals
  import opened Permissions
  import opened Lists

  /** The channel classes the counters are keyed by. */
  datatype ChannelKind = TextChannel | VoiceChannel | CategoryChannel | OtherChannel

  /** A guild channel with the `@everyone` overwrite pair it carries. */
  datatype Channel = Channel(kind: ChannelKind, allow: nat, deny: nat)

  /** The permissions `@everyone` ends up with in a channel. */
  function EveryonePerms(everyone: nat, c: Channel): nat {
    Resolve(everyone, c.allow, c.deny)
  }

  /** A channel counts as locked when `@everyone` cannot read it, or, for a
      voice channel, cannot connect or cannot speak. */
  predicate IsLocked(kind: ChannelKind, perms: nat): (r: bool)
    ensures !Bit(perms, ReadMessages) ==> r
    ensures kind != VoiceChannel ==> (r <==> !Bit(perms, ReadMessages))
    ensures kind == VoiceChannel ==>
      (!r <==> Bit(perms, ReadMessages) && Bit(perms, Connect) && Bit(perms, Speak))
  {
    !Bit(perms, ReadMessages)
    || (kind == VoiceChannel && (!Bit(perms, Connect) || !Bit(perms, Speak)))
  }

  /** An overwrite that allows reading (and, for voice, connecting and
      speaking) unlocks a channel whatever the base permissions say. */
  lemma AllowUnlocks(everyone: nat, c: Channel)
    requires Bit(c.allow, ReadMessages)
    requires c.kind == VoiceChannel ==> Bit(c.allow, Connect) && Bit(c.allow, Speak)
    ensures !IsLocked(c.kind, EveryonePerms(everyone, c))
  {
  }

  /** An overwrite that denies reading without allowing it locks a channel
      whatever the base permissions say. */
  lemma DenyLocks(everyone: nat, c: Channel)
    requires Bit(c.deny, ReadMessages) && !Bit(c.allow, ReadMessages)
    ensures IsLocked(c.kind, EveryonePerms(everyone, c))
  {
  }

  /** `totals[kind]`: how many channels have this kind. */
  function TotalOf(channels: seq<Channel>, kind: ChannelKind): (n: nat)
    ensures n <= |channels|
    ensures n > 0 <==> exists i :: 0 <= i < |channels| && channels[i].kind == kind
    decreases |channels|
  {
    if |channels| == 0 then 0
    else
      var rest := TotalOf(channels[1..], kind);
      assert forall i :: 1 <= i < |channels| ==> channels[i] == channels[1..][i - 1];
      (if channels[0].kind == kind then 1 else 0) + rest
  }

  /** The total of a kind is the number of times the kind occurs among the
      channels' kinds: the count `Counter` keeps for it. */
  lemma {:induction false} TotalOfCountsKinds(channels: seq<Channel>, kind: ChannelKind)
    ensures TotalOf(channels, kind) == multiset(KindsOf(channels))[kind]
    decreases |channels|
  {
    if |channels| > 0 {
      TotalOfCountsKinds(channels[1..], kind);
      assert KindsOf(channels) == [channels[0].kind] + KindsOf(channels[1..]);
    }
  }

  /** Totals add up over a split of the channel list. */
  lemma {:induction false} TotalOfAppend(a: seq<Channel>, b: seq<Channel>, kind: ChannelKind)
    ensures TotalOf(a + b, kind) == TotalOf(a, kind) + TotalOf(b, kind)
    decreases |a|
  {
    if |a| > 0 {
      TotalOfAppend(a[1..], b, kind);
      assert (a + b)[1..] == a[1..] + b;
    } else {
      assert a + b == b;
    }
  }

  /** `secret[kind]`: how many channels of this kind are locked. */
  function LockedOf(channels: seq<Channel>, everyone: nat, kind: ChannelKind): (n: nat)
    ensures n <= TotalOf(channels, kind)
    decreases |channels|
  {
    if |channels| == 0 then 0
    else
      var c := channels[0];
      (if c.kind == kind && IsLocked(kind, EveryonePerms(everyone, c)) then 1 else 0)
        + LockedOf(channels[1..], everyone, kind)
  }

  /** Locked counts add up over a split of the channel list. */
  lemma {:induction false} LockedOfAppend(a: seq<Channel>, b: seq<Channel>, everyone: nat,
                                          kind: ChannelKind)
    ensures LockedOf(a + b, everyone, kind) == LockedOf(a, everyone, kind) + LockedOf(b, everyone, kind)
    decreases |a|
  {
    if |a| > 0 {
      LockedOfAppend(a[1..], b, everyone, kind);
      assert (a + b)[0] == a[0] && (a + b)[1..] == a[1..] + b;
      var head := if a[0].kind == kind && IsLocked(kind, EveryonePerms(everyone, a[0])) then 1 else 0;
      assert LockedOf(a + b, everyone, kind) == head + LockedOf(a[1..] + b, everyone, kind);
      assert LockedOf(a, everyone, kind) == head + LockedOf(a[1..], everyone, kind);
    } else {
      assert a + b == b;
    }
  }

  /** One channel counts once towards its own kind, and as locked exactly
      when `@everyone` is locked out of it. */
  lemma OneChannelCounts(c: Channel, everyone: nat)
    ensures TotalOf([c], c.kind) == 1
    ensures LockedOf([c], everyone, c.kind) == 1 <==> IsLocked(c.kind, EveryonePerms(everyone, c))
    ensures LockedOf([c], everyone, c.kind) <= 1
  {
    assert [c][1..] == [];
  }

  /** The kinds in the order they first occur: the iteration order of the
      `totals` counter. */
  function FirstSeen(kinds: seq<ChannelKind>): (r: seq<ChannelKind>)
    ensures forall k :: k in r <==> k in kinds
    ensures forall i, j :: 0 <= i < j < |r| ==> r[i] != r[j]
    ensures forall i, j :: 0 <= i < j < |r| ==> IndexOf(kinds, r[i]) < IndexOf(kinds, r[j])
    decreases |kinds|
  {
    if |kinds| == 0 then []
    else
      var init := kinds[..|kinds| - 1];
      var front := FirstSeen(init);
      var last := kinds[|kinds| - 1];
      assert kinds == init + [last];
      assert forall k :: k in kinds <==> k in init || k == last;
      assert forall i :: 0 <= i < |front| ==> IndexOf(kinds, front[i]) == IndexOf(init, front[i]) by {
        forall i | 0 <= i < |front| {
          IndexOfAppend(init, last, front[i]);
        }
      }
      if last in front then front
      else
        IndexOfLast(init, last);
        front + [last]
  }

  function KindsOf(channels: seq<Channel>): (r: seq<ChannelKind>)
    ensures |r| == |channels|
    ensures forall i :: 0 <= i < |channels| ==> r[i] == channels[i].kind
  {
    seq(|channels|, i requires 0 <= i < |channels| => channels[i].kind)
  }

  const TextEmoji: string := "<:TextChannel:745076999160070296>"
  const VoiceEmoji: string := "<:VoiceChannel:745077018080575580>"

  /** The custom emoji a kind is shown with; other kinds have none and get
      no line. */
  function KindEmoji(kind: ChannelKind): Option<string> {
    match kind
    case TextChannel => Some(TextEmoji)
    case VoiceChannel => Some(VoiceEmoji)
    case _ => None
  }

  /** One "Channels" line: `{emoji} {total}`, with ` ({locked} locked)` when
      any are locked. The line ends in `)` exactly when some are locked. */
  function ChannelLine(emoji: string, total: nat, locked: nat): (r: string)
    ensures StartsWith(r, emoji + " " + Decimal(total))
    ensures r[|r| - 1] == ')' <==> locked > 0
  {
    var head := emoji + " " + Decimal(total);
    var tail := if locked > 0 then " (" + Decimal(locked) + " locked)" else "";
    assert (head + tail)[..|head|] == head;
    DecimalEndsInDigit(total);
    head + tail
  }

  /** A numeral never ends in `)`. */
  lemma DecimalEndsInDigit(n: nat)
    ensures Decimal(n)[|Decimal(n)| - 1] != ')'
  {
    var d := Decimal(n);
    DigitRoundTrip(DigitValue(d[|d| - 1]));
  }

  /** The line of one channel kind, with that kind's total and locked count. */
  function KindLine(kind: ChannelKind, emoji: string, channels: seq<Channel>, everyone: nat): string {
    ChannelLine(emoji, TotalOf(channels, kind), LockedOf(channels, everyone, kind))
  }

  function TextLine(channels: seq<Channel>, everyone: nat): string {
    KindLine(TextChannel, TextEmoji, channels, everyone)
  }

  function VoiceLine(channels: seq<Channel>, everyone: nat): string {
    KindLine(VoiceChannel, VoiceEmoji, channels, everyone)
  }

  /** The text line and the voice line differ: they start with different
      emoji. */
  lemma TextLineIsNotVoiceLine(channels: seq<Channel>, everyone: nat)
    ensures TextLine(channels, everyone) != VoiceLine(channels, everyone)
  {
    var t, v := TextLine(channels, everyone), VoiceLine(channels, everyone);
    var tp := TextEmoji + " " + Decimal(TotalOf(channels, TextChannel));
    var vp := VoiceEmoji + " " + Decimal(TotalOf(channels, VoiceChannel));
    assert t[..|tp|] == tp && v[..|vp|] == vp;
    assert t[2] == tp[2] == TextEmoji[2] == 'T';
    assert v[2] == vp[2] == VoiceEmoji[2] == 'V';
  }

  function ChannelLinesFor(order: seq<ChannelKind>, channels: seq<Channel>, everyone: nat): (r: seq<string>)
    ensures |r| <= |order|
    decreases |order|
  {
    if |order| == 0 then []
    else
      var kind := order[0];
      var rest := ChannelLinesFor(order[1..], channels, everyone);
      match KindEmoji(kind)
      case None => rest
      case Some(emoji) => [KindLine(kind, emoji, channels, everyone)] + rest
  }

  /** `line` is the text line and text is among `order`, or the voice line
      and voice is. */
  predicate LineOfKindIn(line: string, order: seq<ChannelKind>, channels: seq<Channel>, everyone: nat) {
    (line == TextLine(channels, everyone) && TextChannel in order)
    || (line == VoiceLine(channels, everyone) && VoiceChannel in order)
  }

  /** The line a single kind contributes: none for a kind without emoji. */
  function KindLines(kind: ChannelKind, channels: seq<Channel>, everyone: nat): seq<string> {
    if kind == TextChannel then [TextLine(channels, everyone)]
    else if kind == VoiceChannel then [VoiceLine(channels, everyone)]
    else []
  }

  /** One step of `ChannelLinesFor`. */
  lemma ChannelLinesForStep(order: seq<ChannelKind>, channels: seq<Channel>, everyone: nat)
    requires |order| > 0
    ensures ChannelLinesFor(order, channels, everyone)
      == KindLines(order[0], channels, everyone) + ChannelLinesFor(order[1..], channels, everyone)
  {
  }

  /** Walking the kinds in `order` gives only the text line, when text is
      among them, and the voice line, when voice is. */
  lemma {:induction false} ChannelLinesForOnly(order: seq<ChannelKind>, channels: seq<Channel>, everyone: nat)
    ensures forall i :: 0 <= i < |ChannelLinesFor(order, channels, everyone)| ==>
      LineOfKindIn(ChannelLinesFor(order, channels, everyone)[i], order, channels, everyone)
    decreases |order|
  {
    if |order| > 0 {
      var rest := order[1..];
      ChannelLinesForOnly(rest, channels, everyone);
      ChannelLinesForStep(order, channels, everyone);
      assert forall k :: k in rest ==> k in order;
      var r := ChannelLinesFor(order, channels, everyone);
      var tail := ChannelLinesFor(rest, channels, everyone);
      var head := KindLines(order[0], channels, everyone);
      forall i | 0 <= i < |r|
        ensures LineOfKindIn(r[i], order, channels, everyone)
      {
        if i >= |head| {
          assert r[i] == tail[i - |head|];
          assert LineOfKindIn(tail[i - |head|], rest, channels, everyone);
        } else {
          assert r[i] == head[0];
        }
      }
    }
  }

  /** Walking the kinds in `order` gives the text line when text is among
      them and the voice line when voice is. */
  lemma {:induction false} ChannelLinesForShows(order: seq<ChannelKind>, channels: seq<Channel>, everyone: nat, kind: ChannelKind)
    requires kind in order
    ensures forall line :: line in KindLines(kind, channels, everyone) ==> line in ChannelLinesFor(order, channels, everyone)
    decreases |order|
  {
    var rest := order[1..];
    ChannelLinesForStep(order, channels, everyone);
    if order[0] != kind {
      assert kind in rest by {
        assert order == [order[0]] + rest;
      }
      ChannelLinesForShows(rest, channels, everyone, kind);
    }
  }

  /** Walking the kinds in `order` gives the text line iff text is among
      them, the voice line iff voice is, and no other line. */
  lemma ChannelLinesForMembers(order: seq<ChannelKind>, channels: seq<Channel>, everyone: nat)
    ensures forall i :: 0 <= i < |ChannelLinesFor(order, channels, everyone)| ==>
      LineOfKindIn(ChannelLinesFor(order, channels, everyone)[i], order, channels, everyone)
    ensures TextChannel in order ==> TextLine(channels, everyone) in ChannelLinesFor(order, channels, everyone)
    ensures VoiceChannel in order ==> VoiceLine(channels, everyone) in ChannelLinesFor(order, channels, everyone)
  {
    ChannelLinesForOnly(order, channels, everyone);
    if TextChannel in order {
      ChannelLinesForShows(order, channels, everyone, TextChannel);
    }
    if VoiceChannel in order {
      ChannelLinesForShows(order, channels, everyone, VoiceChannel);
    }
  }

  /** The "Channels" field lines: one per kind present that has an emoji, in
      order of first occurrence. */
  function ChannelLines(channels: seq<Channel>, everyone: nat): (r: seq<string>)
    ensures |r| <= 2
    ensures forall i :: 0 <= i < |r| ==>
      r[i] == TextLine(channels, everyone) || r[i] == VoiceLine(channels, everyone)
  {
    var order := FirstSeen(KindsOf(channels));
    ChannelLinesForCount(order, channels, everyone);
    CountShownDistinct(order);
    ChannelLinesForMembers(order, channels, everyone);
    ChannelLinesFor(order, channels, everyone)
  }

  /** A kind is among the counted kinds iff some channel has it. */
  lemma KindPresent(channels: seq<Channel>, kind: ChannelKind)
    ensures kind in FirstSeen(KindsOf(channels)) <==> TotalOf(channels, kind) > 0
  {
    var kinds := KindsOf(channels);
    if kind in kinds {
      var i :| 0 <= i < |kinds| && kinds[i] == kind;
      assert channels[i].kind == kind;
    }
    if TotalOf(channels, kind) > 0 {
      var i :| 0 <= i < |channels| && channels[i].kind == kind;
      assert kinds[i] == kind;
    }
  }

  /** The "Channels" field shows the text line, with the text total and
      locked count, iff the guild has a text channel; likewise for voice;
      and it shows nothing else. */
  lemma ChannelLinesShowKinds(channels: seq<Channel>, everyone: nat)
    ensures TextLine(channels, everyone) in ChannelLines(channels, everyone)
      <==> TotalOf(channels, TextChannel) > 0
    ensures VoiceLine(channels, everyone) in ChannelLines(channels, everyone)
      <==> TotalOf(channels, VoiceChannel) > 0
    ensures forall line :: line in ChannelLines(channels, everyone) ==>
      line == TextLine(channels, everyone) || line == VoiceLine(channels, everyone)
  {
    var order := FirstSeen(KindsOf(channels));
    ChannelLinesForMembers(order, channels, everyone);
    KindPresent(channels, TextChannel);
    KindPresent(channels, VoiceChannel);
    TextLineIsNotVoiceLine(channels, everyone);
  }

  function CountShown(order: seq<ChannelKind>): nat
    decreases |order|
  {
    if |order| == 0 then 0
    else (if KindEmoji(order[0]).Some? then 1 else 0) + CountShown(order[1..])
  }

  lemma {:induction false} ChannelLinesForCount(order: seq<ChannelKind>, channels: seq<Channel>, everyone: nat)
    ensures |ChannelLinesFor(order, channels, everyone)| == CountShown(order)
    decreases |order|
  {
    if |order| > 0 {
      ChannelLinesForCount(order[1..], channels, everyone);
    }
  }

  /** Among distinct kinds, the number with an emoji is the number of text
      and voice kinds present. */
  lemma {:induction false} CountShownDistinct(order: seq<ChannelKind>)
    requires forall i, j :: 0 <= i < j < |order| ==> order[i] != order[j]
    ensures CountShown(order)
      == (if TextChannel in order then 1 else 0) + (if VoiceChannel in order then 1 else 0)
    decreases |order|
  {
    if |order| > 0 {
      var rest := order[1..];
      CountShownDistinct(rest);
      assert order[0] !in rest by {
        forall j | 0 <= j < |rest|
          ensures rest[j] != order[0]
        {
          assert rest[j] == order[j + 1];
        }
      }
      assert forall k :: k in order <==> k == order[0] || k in rest by {
        assert order == [order[0]] + rest;
      }
    }
  }

  /** The "Channels" field has a line for text channels iff the guild has one,
      and likewise for voice channels, and nothing else. */
  lemma ChannelLinesCount(channels: seq<Channel>, everyone: nat)
    ensures |ChannelLines(channels, everyone)|
      == (if TotalOf(channels, TextChannel) > 0 then 1 else 0)
       + (if TotalOf(channels, VoiceChannel) > 0 then 1 else 0)
  {
    var order := FirstSeen(KindsOf(channels));
    ChannelLinesForCount(order, channels, everyone);
    CountShownDistinct(order);
    KindPresent(channels, TextChannel);
    KindPresent(channels, VoiceChannel);
  }

  /** A guild emoji: animated or not, and available or not. */
  datatype Emoji = Emoji(animated: bool, available: bool)

  datatype EmojiStats = EmojiStats(regular: nat, animated: nat, disabled: nat, animatedDisabled: nat)

  /** The `emoji_stats` counter: every emoji is regular or animated, and the
      unavailable ones are counted again as disabled of their sort. */
  function TallyEmoji(emojis: seq<Emoji>): (r: EmojiStats)
    ensures r.regular + r.animated == |emojis|
    ensures r.disabled <= r.regular && r.animatedDisabled <= r.animated
    decreases |emojis|
  {
    if |emojis| == 0 then EmojiStats(0, 0, 0, 0)
    else
      var s := TallyEmoji(emojis[..|emojis| - 1]);
      var e := emojis[|emojis| - 1];
      var off := if e.available then 0 else 1;
      if e.animated then EmojiStats(s.regular, s.animated + 1, s.disabled, s.animatedDisabled + off)
      else EmojiStats(s.regular + 1, s.animated, s.disabled + off, s.animatedDisabled)
  }

  /** The tally of two lists of emoji is the sum of their tallies, so it does
      not depend on the order the guild lists them in. */
  lemma {:induction false} TallyEmojiAppend(a: seq<Emoji>, b: seq<Emoji>)
    ensures TallyEmoji(a + b).regular == TallyEmoji(a).regular + TallyEmoji(b).regular
    ensures TallyEmoji(a + b).animated == TallyEmoji(a).animated + TallyEmoji(b).animated
    ensures TallyEmoji(a + b).disabled == TallyEmoji(a).disabled + TallyEmoji(b).disabled
    ensures TallyEmoji(a + b).animatedDisabled == TallyEmoji(a).animatedDisabled + TallyEmoji(b).animatedDisabled
    decreases |b|
  {
    if |b| == 0 {
      assert a + b == a;
    } else {
      TallyEmojiAppend(a, b[..|b| - 1]);
      assert (a + b)[..|a + b| - 1] == a + b[..|b| - 1];
    }
  }

  /** The tally counts some emoji as disabled exactly when the guild has an
      unavailable emoji, and some as animated exactly when it has an
      animated one. */
  lemma {:induction false} TallyCountsUnavailable(emojis: seq<Emoji>)
    ensures TallyEmoji(emojis).disabled + TallyEmoji(emojis).animatedDisabled > 0
      <==> exists i :: 0 <= i < |emojis| && !emojis[i].available
    ensures TallyEmoji(emojis).animated > 0
      <==> exists i :: 0 <= i < |emojis| && emojis[i].animated
    decreases |emojis|
  {
    if |emojis| > 0 {
      var front := emojis[..|emojis| - 1];
      TallyCountsUnavailable(front);
      assert forall i :: 0 <= i < |front| ==> front[i] == emojis[i];
      assert forall i :: 0 <= i < |emojis| ==> i == |emojis| - 1 || emojis[i] == front[i];
    }
  }

  /** The lines of the "Emoji" field; the "Disabled" line, third, is there
      only when some emoji is unavailable. */
  function EmojiLines(emojis: seq<Emoji>, limit: nat): (r: seq<string>)
    ensures var s := TallyEmoji(emojis);
      |r| == (if s.disabled > 0 || s.animatedDisabled > 0 then 4 else 3)
    ensures r[0] == "Regular: " + Decimal(TallyEmoji(emojis).regular) + "/" + Decimal(limit)
    ensures r[1] == "Animated: " + Decimal(TallyEmoji(emojis).animated) + "/" + Decimal(limit)
    ensures |r| == 4 <==> exists i :: 0 <= i < |emojis| && !emojis[i].available
    ensures |r| == 4 ==> r[2] == "Disabled: " + Decimal(TallyEmoji(emojis).disabled) + " regular, "
                                + Decimal(TallyEmoji(emojis).animatedDisabled) + " animated"
    ensures r[|r| - 1] == "Total Emoji: " + Decimal(|emojis|) + "/" + Decimal(limit * 2)
  {
    TallyCountsUnavailable(emojis);
    var s := TallyEmoji(emojis);
    var counts := ["Regular: " + Decimal(s.regular) + "/" + Decimal(limit),
                   "Animated: " + Decimal(s.animated) + "/" + Decimal(limit)];
    var disabled := if s.disabled > 0 || s.animatedDisabled > 0
                    then ["Disabled: " + Decimal(s.disabled) + " regular, "
                          + Decimal(s.animatedDisabled) + " animated"]
                    else [];
    counts + disabled + ["Total Emoji: " + Decimal(|emojis|) + "/" + Decimal(limit * 2)]
  }

  /** A role name with every `@` followed by a zero-width space, so that the
      name cannot mention anyone. */
  function EscapeMentions(name: string): string {
    Replace(name, "@", "@\U{200B}")
  }

  /** Undoing the escape: every `@` plus zero-width space becomes `@`. */
  function UnescapeMentions(shown: string): string {
    Replace(shown, "@\U{200B}", "@")
  }

  /** Escaping loses nothing: the original role name can be read back. */
  lemma {:induction false} EscapeMentionsRoundTrip(name: string)
    ensures UnescapeMentions(EscapeMentions(name)) == name
    decreases |name|
  {
    if |name| > 0 {
      var tail := name[1..];
      EscapeMentionsRoundTrip(tail);
      var escapedTail := EscapeMentions(tail);
      if name[0] == '@' {
        assert StartsWith(name, "@");
        assert name[1..] == tail;
        var e := "@\U{200B}" + escapedTail;
        assert EscapeMentions(name) == e;
        assert StartsWith(e, "@\U{200B}");
        assert e[2..] == escapedTail;
        assert UnescapeMentions(e) == "@" + UnescapeMentions(escapedTail);
        assert name == "@" + tail;
      } else {
        assert !StartsWith(name, "@");
        var e := [name[0]] + escapedTail;
        assert EscapeMentions(name) == e;
        assert e[0] == name[0] && "@\U{200B}"[0] == '@';
        assert !StartsWith(e, "@\U{200B}") by {
          if |e| >= 2 {
            assert e[..2][0] == e[0];
          }
        }
        assert e[1..] == escapedTail;
        assert name == [name[0]] + tail;
      }
    }
  }

  function EscapeAll(names: seq<string>): (r: seq<string>)
    ensures |r| == |names|
    ensures forall i :: 0 <= i < |names| ==> r[i] == EscapeMentions(names[i])
  {
    seq(|names|, i requires 0 <= i < |names| => EscapeMentions(names[i]))
  }

  /** The "Roles" field: the escaped names joined by `, ` while there are
      fewer than ten, `"{n} roles"` from ten on. */
  function RolesField(names: seq<string>): (r: string)
    ensures |names| >= 10 ==> r == Decimal(|names|) + " roles"
    ensures |names| < 10 ==> r == Join(EscapeAll(names), ", ")
  {
    if |names| < 10 then Join(EscapeAll(names), ", ") else Decimal(|names|) + " roles"
  }

  /** `info` adds the "Roles" field only for a user with roles. */
  function InfoRolesField(names: seq<string>): (r: Option<string>)
    ensures r.None? <==> |names| == 0
    ensures r.Some? ==> r.value == RolesField(names)
  {
    if |names| == 0 then None else Some(RolesField(names))
  }

  /** The "Voice" field of `info` for a member in voice channel `channelName`
      whose member list has `memberCount` entries (the member included). */
  function VoiceField(channelName: string, memberCount: nat): (r: string)
    ensures memberCount == 1 ==> r == channelName + " by themselves"
    ensures memberCount != 1 ==> r == channelName + " with " + IntToString(memberCount - 1) + " others"
  {
    var others := memberCount - 1;
    if others != 0 then channelName + " with " + IntToString(others) + " others"
    else channelName + " by themselves"
  }

  /** The "Servers" figure of `info`: guilds (given by their member ids) that
      have the user as a member. */
  function SharedGuilds(guildMembers: seq<set<nat>>, userId: nat): (n: nat)
    ensures n <= |guildMembers|
    ensures n == 0 <==> forall i :: 0 <= i < |guildMembers| ==> userId !in guildMembers[i]
    decreases |guildMembers|
  {
    if |guildMembers| == 0 then 0
    else
      var rest := SharedGuilds(guildMembers[1..], userId);
      assert forall i :: 1 <= i < |guildMembers| ==> guildMembers[i] == guildMembers[1..][i - 1];
      (if userId in guildMembers[0] then 1 else 0) + rest
  }
}
