# Akane command rules in Dafny

A model of the pure rules inside three cogs of the Akane Discord bot. It covers
`cogs/meta.py`, `cogs/reddit.py` and `cogs/time.py`:

- **Prefixes** (`prefixes.dfy`): the guild prefix list. This covers the
  reserved-prefix converter (`Prefix.convert`), the listing that hides entry 1
  and numbers the rest from 1, and `prefix add` / `remove` / `clear`, each
  expressed as the list it hands to the store or the reply it sends instead.
- **Lists** (`lists.dfy`): Python's `list.index` and `list.remove`.
- **Permissions** (`permissions.dfy`): permission masks as unbounded naturals
  with explicit bit functions. `(base & ~deny) | allow` is characterised bit by
  bit. The `say_permissions` loop splits a permission set into shown "Allowed"
  and "Denied" names.
- **ServerInfo** (`serverinfo.dfy`): the `serverinfo` channel counters,
  totalled and locked per channel type. Also here are the "Channels" lines, the
  emoji tallies and "Emoji" lines, role-name mention escaping, the "Roles"
  field, the `info` "Voice" line and the shared-server count.
- **MetaText** (`metatext.dfy`): the `charinfo` line, the `FetchedUser` digit
  check, and the `source` link with its `#L{first}-L{last}` anchor.
- **Reddit** (`reddit.dfy`): the subreddit-name normalisation and the "about"
  checks. Also here are the post-filter loop with its counter limit of 20, the
  image and video link rules, and `_gen_embeds` paging with its 15-page cap and
  `Result i/n` footers.
- **Timezones** (`timezones.dfy`): `TimezoneConverter.convert`. This covers
  case-insensitive recognition, the numbered prompt, the reply check, the
  selection, and the `Page i/n` footers of `_gen_tz_embeds`.
- **Strings, Numerals, Outcomes**: the Python `str` methods, integer rendering
  (`f"{n}"`, `f"{n:x}"`, `int(s)`) and the `Option` / `Result` types the rest
  is written with.

Everything the bot fetches or is told becomes an input:

- the guild's prefix list: the full list the bot reports for the listing, and
  the stored custom list for `add`, `remove` and `clear`;
- the `@everyone` base mask and each channel's overwrite pair;
- the permission flag table;
- the emoji flags;
- the Unicode name lookup;
- the user fetch outcome;
- the command lookup and its source location;
- the decoded Reddit JSON;
- the fuzzy timezone matches;
- the messages that arrive before the reply timeout.

Three behaviours of the code worth knowing:

- `prefix add` does **not** reject a prefix that is already stored
  (`cogs/meta.py:106-109`). `Prefixes.AddKeepsDuplicates` proves that a
  second copy is stored.
- The listing deletes only index 1 of the bot's full prefix list
  (`cogs/meta.py:75-80`), which by the comment there is the second mention
  form. So the full list `<@1>`, `<@!1>`, `!`, `?` lists as `1. <@1>`,
  `2. !`, `3. ?` (`Prefixes.ListingExample`): the first mention form is
  shown, and only the second is hidden.
- `clear` hands the store the empty list. The mention forms cannot be added
  to or removed from the stored list by name, because the converter refuses
  them first.

## Model

| member | source | states |
|---|---|---|
| Prefixes.ConvertPrefix | cogs/meta.py:20-25 | an argument is refused with "That is a reserved prefix already in use." exactly when it starts with `<@id>` or `<@!id>`; any other argument comes back unchanged |
| Prefixes.MentionsAreReserved | cogs/meta.py:22-24 | both mention forms followed by any text are refused |
| Prefixes.NumberedLines | cogs/meta.py:84-86 | line k is `{start+k}. {item k}`, one line per item |
| Prefixes.ListPrefixes | cogs/meta.py:75-86 | a list shorter than two cannot be listed (the `del` raises); otherwise the footer is `{n-1} prefixes` and the description is the lines joined by newlines |
| Prefixes.ListingOmitsSecondEntry | cogs/meta.py:80-86 | a list of n ≥ 2 lists as n-1 lines; line k shows entry 0 for k = 0 and entry k+1 otherwise, numbered k+1, so exactly index 1 is omitted and the order is kept |
| Prefixes.ListingExample | cogs/meta.py:77-86 | the full list `<@1>`, `<@!1>`, `!`, `?` lists as `1. <@1>`, `2. !`, `3. ?` with footer `3 prefixes`: the first mention form is shown, the second hidden |
| Prefixes.ListingDescriptionLines | cogs/meta.py:80-86 | for every list of at least two prefixes none of which holds a newline (including the two-entry list that lists as one line), splitting the description on newlines gives back exactly the numbered lines |
| Prefixes.AddPrefix | cogs/meta.py:106-109 | a reserved prefix gets the refusal reply; any other prefix persists `old ++ [p]`, with earlier entries unchanged and in order |
| Prefixes.AddKeepsDuplicates | cogs/meta.py:106-109 | adding a prefix that is already stored raises its count by one: there is no duplicate check |
| Lists.IndexOf | cogs/meta.py:136 | the position found holds the value and no earlier position does |
| Lists.RemoveFirst | cogs/meta.py:136 | the result is the list with exactly the first occurrence cut out |
| Lists.RemoveFirstContents | cogs/meta.py:136 | removing takes exactly one copy of the value out of the list's multiset |
| Prefixes.RemovePrefix | cogs/meta.py:133-141 | a reserved prefix is refused; an absent one gets "I do not have this prefix registered." and nothing is persisted; a present one persists the list without its first occurrence, all other entries in order |
| Prefixes.RemoveKeepsLaterCopies | cogs/meta.py:133-141 | removing a prefix stored twice keeps the later copy |
| Prefixes.AddThenRemove | cogs/meta.py:106-141 | `add p` then `remove p` restores the list when p was not stored |
| Prefixes.ClearPrefixes | cogs/meta.py:157 | clear persists the empty list whatever was stored |
| Permissions.AndNotBits | cogs/meta.py:290 | bit i of `a & ~b` is set iff it is set in a and not in b |
| Permissions.OrBits | cogs/meta.py:290 | bit i of `a OR b` is set iff it is set in a or in b |
| Permissions.Resolve | cogs/meta.py:289-290 | bit i of the effective mask is set iff it is allowed, or set in the base and not denied |
| Permissions.ResolveRules | cogs/meta.py:290 | an allowed bit is always set; a denied bit that is not allowed is cleared; every other bit keeps its base value |
| Permissions.ResolveUnique | cogs/meta.py:290 | any mask with those bits is the effective mask itself |
| Permissions.DisplayNameHasNoUnderscore | cogs/meta.py:408 | a shown permission name never contains `_` |
| Permissions.DisplayNameSaysServer | cogs/meta.py:408 | for every flag name made of lower-case letters and `_`, the shown name never contains `guild`: each occurrence became `server`, and title case does not bring the word back |
| Permissions.ManageGuildShown | cogs/meta.py:408 | the flag `manage_guild` is shown as `Manage Server` |
| Strings.ReplaceLeavesNoPattern | cogs/meta.py:408 | after `replace(pat, rep)` with a replacement sharing no character with the pattern, the pattern occurs at no offset of the output |
| Strings.TitleKeepsLowerOccurrence | cogs/meta.py:408 | on text without upper-case letters, a lower-case word found in the title-cased text was already there at the same offset |
| Strings.Title | cogs/meta.py:408 | `str.title` on ASCII: a letter is upper-case when it starts a run of letters and lower-case inside one; other characters are kept |
| Permissions.PermissionPairs | cogs/meta.py:401-407 | iterating a permission set gives each flag's name with its bit in the mask, in table order |
| Permissions.Partitioned | cogs/meta.py:405-412 | reference split: allowed and denied together have one entry per permission |
| Permissions.PartitionedAppend | cogs/meta.py:407-412 | splitting a concatenation concatenates the splits, so input order is kept in both lists |
| Permissions.PartitionedPlacesEach | cogs/meta.py:407-412 | a set permission's shown name is in allowed, an unset one's in denied |
| Permissions.SplitPermissions | cogs/meta.py:405-412 | the loop computes the reference split: every permission lands in exactly one list, in order, under its rewritten name |
| ServerInfo.AllowUnlocks | cogs/meta.py:289-298 | an overwrite allowing read (and connect and speak for voice) leaves the channel unlocked whatever the base is |
| ServerInfo.DenyLocks | cogs/meta.py:289-294 | an overwrite denying read without allowing it locks the channel whatever the base is |
| ServerInfo.IsLocked | cogs/meta.py:293-298 | a channel `@everyone` cannot read is locked; a non-voice channel is locked iff it cannot be read; a voice channel is unlocked iff read, connect and speak are all allowed |
| ServerInfo.TotalOf | cogs/meta.py:288-292 | the total of a type is at most the number of channels, and positive iff a channel of that type exists |
| ServerInfo.LockedOf | cogs/meta.py:288-298 | per type, the locked count never exceeds the total |
| ServerInfo.TotalOfCountsKinds | cogs/meta.py:288-292 | the total of a type is exactly how many times the type occurs among the channels' types, the count `Counter` keeps |
| ServerInfo.TotalOfAppend | cogs/meta.py:288-292 | totals add up over any split of the channel list |
| ServerInfo.LockedOfAppend | cogs/meta.py:288-298 | locked counts add up over any split of the channel list |
| ServerInfo.OneChannelCounts | cogs/meta.py:288-298 | a single channel adds one to its type's total, and one to its locked count exactly when it is locked; with additivity this fixes both counts for every list |
| ServerInfo.FirstSeen | cogs/meta.py:286-292 | the counter's keys are the types present, each once, in the order each type first occurs among the channels (which decides whether the text or the voice line comes first) |
| ServerInfo.KindsOf | cogs/meta.py:291 | one type per channel, in channel order |
| ServerInfo.ChannelLine | cogs/meta.py:320-323 | a line starts with `{emoji} {total}` and ends in `)` iff some channels of its type are locked |
| ServerInfo.ChannelLinesForOnly | cogs/meta.py:313-323 | walking the counted types gives only the text line, when text is among them, and the voice line, when voice is |
| ServerInfo.ChannelLinesForMembers | cogs/meta.py:313-323 | walking the counted types gives the text line iff text is among them, the voice line iff voice is, and no other line |
| ServerInfo.ChannelLines | cogs/meta.py:308-323 | the "Channels" field has at most two lines, each the text line or the voice line with that type's total and locked count |
| ServerInfo.ChannelLinesShowKinds | cogs/meta.py:286-323 | the text line, with the text total and locked count, is shown iff the guild has a text channel; the same for voice; no other line is shown |
| ServerInfo.ChannelLinesForCount | cogs/meta.py:313-323 | one line per counted type that has an emoji |
| ServerInfo.CountShownDistinct | cogs/meta.py:309-318 | among distinct types, only text and voice have an emoji and get a line |
| ServerInfo.ChannelLinesCount | cogs/meta.py:308-323 | the number of "Channels" lines is the number of the two types, text and voice, that the guild has a channel of |
| ServerInfo.TallyEmoji | cogs/meta.py:379-386 | regular plus animated is the number of emoji; disabled counts never exceed their kind's count |
| ServerInfo.TallyEmojiAppend | cogs/meta.py:379-386 | every tally is additive over concatenated emoji lists |
| ServerInfo.TallyCountsUnavailable | cogs/meta.py:379-386 | some emoji is counted as disabled iff the guild has an unavailable emoji, and some as animated iff it has an animated one |
| ServerInfo.EmojiLines | cogs/meta.py:388-395 | the field has four lines iff some emoji is unavailable, else three; the first, second and last lines carry the regular, animated and total counts against the limit and twice the limit; the third of four lines is `Disabled: {d} regular, {a} animated` |
| ServerInfo.EscapeMentionsRoundTrip | cogs/meta.py:219-221 | escaping `@` with a zero-width space loses nothing: removing it gives the name back |
| ServerInfo.EscapeAll | cogs/meta.py:281 | every role name is escaped, in order |
| ServerInfo.RolesField | cogs/meta.py:374-377 | ten or more roles show as `N roles`; fewer show the escaped names joined by `, ` |
| ServerInfo.InfoRolesField | cogs/meta.py:250-255 | `info` adds a "Roles" field iff the user has roles |
| ServerInfo.VoiceField | cogs/meta.py:239-248 | one member reads `by themselves`; any other count reads `with {count-1} others`, including `-1` for an empty channel |
| ServerInfo.SharedGuilds | cogs/meta.py:222 | the shared count is at most the number of guilds and zero iff no guild has the user |
| Numerals.ToBase | cogs/meta.py:60 | the rendered numeral is non-empty, uses only digits of the base and has no leading zero |
| Numerals.FromToBase | cogs/meta.py:60 | reading a rendered numeral gives the number back |
| Strings.PadLeft | cogs/meta.py:62 | `:>08` pads on the left with the fill up to the width and keeps the text whole as the suffix |
| MetaText.CodePointHexWidth | cogs/meta.py:60 | a code point needs at most six hex digits |
| MetaText.CharLine | cogs/meta.py:59-62 | a `charinfo` line shows the character itself and ends with its fileformat.info link keyed by the unpadded hex, `/char/{hex}>` |
| MetaText.PaddedCodeValue | cogs/meta.py:60-62 | the padded code is exactly eight lower-case hex digits that read back as the code point |
| MetaText.CharLineCodePoint | cogs/meta.py:59-62 | every `charinfo` line starts with a backquote and `\U`, followed by eight lower-case hex digits that read back as the character's code point |
| MetaText.CharInfoLines | cogs/meta.py:64 | one line per input character, in order |
| MetaText.ConvertUser | cogs/meta.py:28-39 | a non-digit argument is refused before any fetch; otherwise the fetch outcome decides, giving the user, "User not found." or the fetch error message |
| MetaText.DecimalIdsAreFetched | cogs/meta.py:30-33 | every decimal id passes the digit check and succeeds iff the fetch succeeds |
| MetaText.LineAnchorRoundTrip | cogs/meta.py:197 | the anchor of a source of `count ≥ 1` lines reads back as its first and last line, `first + count - 1` |
| MetaText.SourceReply | cogs/meta.py:168-180 | no command gives the repository URL; `help` gives the help command's link; other names are looked up with dots as spaces, or get "Could not find command." |
| MetaText.SourceLinkShape | cogs/meta.py:188-197 | every link opens with `<` and the repository the command's module selects (the library's for a `discord` module, the bot's otherwise) and ends in its line anchor and `>`; a bot link's path holds no backslash |
| Reddit.UpToNewline | cogs/reddit.py:152 | `.*` takes the longest newline-free prefix: the character after it, if any, is a newline |
| Reddit.NormalizeSubreddit | cogs/reddit.py:152-155 | the argument is kept as typed, or replaced by a non-empty, newline-free piece of it |
| Reddit.NormalizeForms | cogs/reddit.py:152-155 | `/r/x`, `r/x`, `/x` and `x` all name the subreddit x |
| Reddit.NormalizeKeepsBareArguments | cogs/reddit.py:154-155 | when nothing is left after the prefixes the argument is kept: `/`, `r/`, `/r/` and the empty string |
| Reddit.NormalizeStripsOnce | cogs/reddit.py:152-155 | the prefixes are stripped once: `r/r/x` names `r/x` |
| Reddit.CheckAbout | cogs/reddit.py:96-99 | missing `data` gives "Subreddit not found."; an over-18 subreddit in a non-NSFW channel gives the NSFW error; otherwise the search goes on |
| Reddit.TimeParam | cogs/reddit.py:101 | `t` is `all` iff the sort is `top`, and empty otherwise |
| Reddit.ErrorReply | cogs/reddit.py:164-175 | the NSFW error alone gets "This ain't an NSFW channel."; both bad-argument errors get the no-posts message |
| Reddit.ImageLink | cogs/reddit.py:128-132 | off the video host, the image link is the url iff the url ends with `.jpg`, `.jpeg`, `.png` or `.gif`; on it, the image link is the thumbnail |
| Reddit.VideoLink | cogs/reddit.py:131-137 | a video link exists iff the url is on the video host and the post has media, and it is the url |
| Reddit.MakePost | cogs/reddit.py:28-44 | the post links to `https://reddit.com/{permalink}`, is authored `/u/{author}`, carries the post's NSFW flag, and counts 0 comments when the count is absent |
| Reddit.ImageUrlIsKept | cogs/reddit.py:128-130 | a `.png` url off the video host is its own image and gives no video |
| Reddit.Collect | cogs/reddit.py:113-142 | reference loop from counter value idx: it collects at most `20 - idx` posts and never more than it is given |
| Reddit.CollectedAreEligible | cogs/reddit.py:121-141 | every collected post is made from a listing post that is neither stickied, NSFW in a safe channel, nor a video without media |
| Reddit.CollectedLinks | cogs/reddit.py:128-141 | every collected post has a video link iff its url is on the video host, and then the link is the url and the image is the thumbnail; any other collected post has an image iff its url names an image file, and then the image is the url |
| Reddit.SafeChannelGetsNoNsfwPosts | cogs/reddit.py:122-126 | in a non-NSFW channel no collected post is NSFW |
| Reddit.CountedSkipsAdvance | cogs/reddit.py:122-126 | each skipped stickied or NSFW post advances the counter by one |
| Reddit.MediaSkipsDoNotAdvance | cogs/reddit.py:131-137 | skipped videos without media leave the counter where it was |
| Reddit.SkipsCompared | cogs/reddit.py:113-142 | twenty stickied posts at the top hide everything after them, while any number of media-less videos hide nothing |
| Reddit.FilterPosts | cogs/reddit.py:113-142 | the loop with its `break` computes the reference collection, so at most 20 posts |
| Reddit.GenPages | cogs/reddit.py:54-85 | `min(15, n)` pages; page k links the k-th post and its footer is `Result {k+1}/{n}` followed by the post's subreddit and `Requested by: {r}` |
| Reddit.FooterPositionRoundTrip | cogs/reddit.py:78-81 | a footer reads back as its one-based position |
| Reddit.PagesAreNumberedInOrder | cogs/reddit.py:78-85 | pages are numbered 1, 2, … in order; with more than 15 posts the footer's total exceeds the number of pages |
| Reddit.RedditCommand | cogs/reddit.py:96-160 | the about errors come first; success gives exactly the pages of the collected posts, 1 to 15 of them; "Bad subreddit." happens iff the checks pass but no post is collected |
| Timezones.RecognisedIgnoresCase | cogs/time.py:50-52 | recognition ignores case: an argument is recognised iff its lower- or upper-case form is, and every zone is recognised in upper case |
| Timezones.Recognised | cogs/time.py:50-52 | a zone name typed exactly is recognised, and nothing is recognised against an empty zone list |
| Timezones.ChoiceLines | cogs/time.py:53-55 | the k-th prompt line is `` `{k+1}.` {match} `` |
| Timezones.ReplyAccepted | cogs/time.py:60-67 | an accepted reply comes from the asker in the asking channel and is digits, possibly followed by one dot |
| Timezones.PromptLines | cogs/time.py:53-58 | the prompt is the header followed by exactly the numbered lines when no match holds a newline |
| Timezones.ReplyAcceptedSpellings | cogs/time.py:60-67 | `n`, `n.` and `0n` from the same author and channel are accepted for n in 1..5; another author or `n..` is not |
| Timezones.DigitsHaveNoDot | cogs/time.py:61 | removing a trailing dot leaves an all-digit reply unchanged |
| Timezones.FirstAccepted | cogs/time.py:69-72 | the reply taken is the first accepted one, and when there is none every message was refused |
| Timezones.SelectAsWritten | cogs/time.py:73 | as written, a reply that is not all digits raises `ValueError`, even though the check passed it |
| Timezones.Select | cogs/time.py:60-73 | corrected (see ## Findings; as written `n.` raises `ValueError`: Timezones.SelectAsWritten): the reply `n` or `n.` picks match n-1 with n-1 in 0..4, and raises `IndexError` only when there are fewer than n matches |
| Timezones.SelectionsAgreeWithoutDot | cogs/time.py:61-73 | both selections agree on every reply without the trailing dot |
| Timezones.TrailingDotIsRefused | cogs/time.py:61-73 | `3.` passes the check, yet as written it raises `ValueError`, where the stripped text picks the third match |
| Timezones.ReplySelectsShownLine | cogs/time.py:53-73 | the reply `n` picks exactly the match the prompt shows on line n |
| Timezones.Convert | cogs/time.py:46-75 | corrected (see ## Findings; as written `n.` raises `ValueError`: Timezones.ConvertAsWritten): a recognised argument gets no prompt and the best match; any other argument gets the prompt and times out iff no reply is accepted; otherwise the first accepted reply, after any refused messages and in any of its spellings (`n`, `n.`, `0n`), reads n from 1 to 5 after stripping the dot and selects match n, or `IndexError` when there are fewer matches; a success is always one of the matches |
| Timezones.ConvertAsWritten | cogs/time.py:46-75 | as written, it sends the same prompt, and any success it reports agrees with the corrected converter; a recognised argument, a timeout, or an accepted all-digit reply give exactly the corrected converter's result; an accepted reply with a trailing dot gives `ValueError` |
| Timezones.ReplyPicksMatch | cogs/time.py:69-73 | a first reply `n` from the asker returns match n, whatever comes later |
| Timezones.PageNumberRoundTrip | cogs/time.py:113-114 | a `Page i/n` footer reads back as i |
| Timezones.TzPagesAsWritten | cogs/time.py:107-116 | as written, one page per chunk, numbered by the first chunk equal to it |
| Timezones.TzPages | cogs/time.py:107-116 | corrected (see ## Findings; as written equal chunks share a page number: Timezones.TzPagesAsWritten): one page per chunk |
| Timezones.TzPagesShape | cogs/time.py:110-114 | page k is numbered k+1, and its description splits back into the chunk's names |
| Timezones.DistinctChunksAgree | cogs/time.py:113 | with pairwise distinct chunks both numberings are the same |
| Timezones.EqualChunksShareANumber | cogs/time.py:113 | the second page of two equal chunks says page 1 as written and page 2 when numbered by position |

## Left out

- All Discord I/O is left out: sending, embeds as platform objects, reactions, menus and paginators, `fetch_user`, `get_member` and `wait_for`. Replies are values; the messages that arrive before the timeout are an input list.
- Prefix persistence (`get_raw_guild_prefixes`, `set_guild_prefixes`) is external, so an edit is the list handed to the store. The tick reply and the error reply of a failing store are left out.
- The full prefix list the listing reads (`get_guild_prefixes`, `cogs/meta.py:75`) is built by the bot outside these cogs from its mention forms and the stored list. Its relation to the stored list that `add`, `remove` and `clear` edit (`cogs/meta.py:106,133,157`) is not part of this model; the listing takes the full list as an input.
- The Reddit HTTP session and JSON decoding are left out: the "about" data and the posts are inputs.
- `textwrap.shorten` is left out: titles and texts are kept whole.
- The fuzzy matcher, `pytz.timezone`, `random.choice` and `datetime.now` are left out. The matches are an input list of at most five names, and the outcome is the chosen name.
- All SQL in `cogs/time.py` is left out: `on_guild_remove` and `time` / `set` / `remove` / `clear` are database semantics.
- `unicodedata.name`, `inspect`, `os.path.relpath` and `human_timedelta` are left out. The name and the source location are inputs, and dates are not rendered.
- Several `serverinfo` and `info` parts are left out: the member-status counter, the feature list, boosts, bot count, icon, colour and avatar. They are display of platform data with no rule to state.
- The `avatar`, `join`, `feedback`, `pm` and `msgraw` commands, cooldowns and `asyncio` are left out.
- Strings.Title: Python's `str.title`, `str.lower` and `str.isdigit` are Unicode-aware, but the model treats only ASCII letters and digits as such, so it is weaker than the source for non-ASCII text.
- Reddit.RedditCommand: the JSON keys are assumed present where the code indexes them (`url`, `thumbnail` of a video post, `ups`). A post lacking one raises `KeyError` in the source and is not modelled.
- Timezones.Convert: the argument of `pytz.timezone` is the chosen name, and an unknown name raising `UnknownTimeZoneError` is not modelled.
- ServerInfo.FirstSeen: the channel classes are reduced to text, voice, category and other. Stage and store channels fall into "other", which has no emoji and no line, as in the source.

## Findings

| source | as written | input that shows it | evidently intended | confidence | as-written member | corrected member |
|---|---|---|---|---|---|---|
| cogs/time.py:60-73 | the reply check strips one trailing `.` before `isdigit`, but the selection calls `int(result.content)` on the unstripped reply | the reply `3.` passes the check, then `int("3.")` raises `ValueError` | select with the stripped text, so `3.` picks the third match | not executed; high | Timezones.SelectAsWritten, Timezones.ConvertAsWritten, Timezones.TrailingDotIsRefused | Timezones.Select, Timezones.Convert |
| cogs/time.py:113 | the page number is `iterable.index(item) + 1`, which finds the first chunk equal to the item | two equal chunks `[["a"], ["a"]]` both get `Page 1/2` | number each page by its own position | not executed; low (the helper has no caller in this file) | Timezones.TzPagesAsWritten, Timezones.EqualChunksShareANumber | Timezones.TzPages |
