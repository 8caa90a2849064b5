# ft2 time-mention engine, in Dafny

This models the core of ft2, a Discord bot. The bot watches messages for casual clock times such as `3pm` or `14:30`. When someone reacts to such a message with ⏰, it direct-messages that person what each time is in their own timezone. Everything else in the repository is plumbing (Discord events, the Postgres user table, a TCP health listener) and is not modelled.

The model has six modules:

- `TimeScanner` is the pattern `(\d{1,2})(?:[.:](\d{2}))? ?(pm|am|PM|AM)?` as a hand scanner. `MatchAt` gives the match the regex engine reports at a digit. `Scan` iterates it the way `captures_iter` does. `ScanMatches` is that iteration as a loop over a position. The lemmas show four things:
  - the reported match is a genuine match of the pattern;
  - it is the unique longest match at its position, which is what leftmost-first preference gives for this pattern;
  - matches come left to right without overlap;
  - every digit of the text lies inside some match.
- `Resolver` is one pass of the reaction handler's loop body. It parses the hour, maps the meridiem to `PmAm`, takes or defaults the minutes (or skips the match), rejects an hour above 12 that carries a meridiem, and computes the hour passed to `and_hms`.
- `Reaction` is the loop itself. A clock that `and_hms` rejects makes it panic, which ends the handler before the send; the model ends the loop with nothing sent at that point. `ReactionBody` is a method with the source's `continue` and early `return`s. It is proved equal to the specification `Notification`. Lemmas about `Collect` state how a skipped, aborted or emitted match affects the message. `Text.SplitJoinLines` shows that the joined message splits back into exactly its lines.
- `Trigger` is the `message` handler's decision: react, ask for a timezone, or ignore.
- `TimezoneArg` is `TIMEZONE_REGEX.find`: the leftmost, longest `word/word` piece of a message.
- `Text` holds ASCII digits, `str::parse::<u32>`, and `join("\n")` with its inverse `split('\n')`.

Three things are inputs rather than computations:

- Anchoring a clock to today's date in the sender's timezone (`ymd` and `and_hms`), projecting it into the reacting user's timezone (`with_timezone`), and printing both: these are the function parameters `anchor` and `project` of `ReactionBody`.
- The clock (`Utc::now()`) only feeds `anchor`.
- The user lookup in `message` is a flag saying whether the author has a timezone on record.

The model follows the code as written, including where it is surprising:

- Only lower-case `am`/`pm` change a time. `AM`/`PM` are matched but resolve like no meridiem (`Resolver.UpperCaseIsUnmarked`).
- A failed parse or an hour above 12 with a meridiem ends the whole handler. Nothing is sent, and lines already built are discarded (`Reaction.AbortDiscardsAll`). Mentions are not isolated from each other.
- `pm` adds 12 unconditionally, so `12pm` becomes hour 24 (`Resolver.TwelvePmIsTwentyFour`), on which `and_hms` panics: nothing is sent (`Reaction.TwelvePmSendsNothing`).
- The message is sent even when it has no lines; its body is then empty (`Reaction.NoDigitSendsEmpty`).
- Line 261 of src/main.rs compares `am_pm == PmAm::None`, but `PmAm` derives no equality. The model uses the evident meaning: no minutes and no meridiem means skip the match.

## Model

| member | source | states |
|---|---|---|
| `TimeScanner.MatchAt` | src/main.rs:22 | the match the engine reports at a digit, taking every optional part that is present; its contract is stated by `TimeScanner.MatchAtLexes` and `TimeScanner.MatchAtIsLongest` |
| `TimeScanner.Scan` | src/main.rs:243 | the matches `captures_iter` yields; its contract is stated by `TimeScanner.ScanIsLeftmost` and `TimeScanner.ScanEmptyIffNoDigit` |
| `TimeScanner.MatchAtLexes` | src/main.rs:22 | the match reported at a digit is a genuine match of the time pattern: 1–2 hour digits, optionally `.`/`:` plus exactly two minute digits, optionally one space, optionally one of `pm`, `am`, `PM`, `AM` |
| `TimeScanner.MatchAtIsLongest` | src/main.rs:22 | every other match of the pattern at the same position ends no later, and one ending at the same place is the same match (greedy optional parts, leftmost-first preference) |
| `TimeScanner.ScanIsLeftmost` | src/main.rs:243 | `captures_iter` reports each match as the engine's match at a digit, left to right without overlap (the next search resumes at the previous end), and every digit of the text lies inside some match |
| `TimeScanner.ScanEmptyIffNoDigit` | src/main.rs:22 | the text yields no match exactly when it contains no digit |
| `TimeScanner.ScanMatches` | src/main.rs:243 | the loop that walks a position through the text returns exactly the matches `captures_iter` reports |
| `TimeScanner.ThreeDigitsSplit` | src/main.rs:22 | `"123"` yields hour `12`, then hour `3` |
| `TimeScanner.SingleMinuteDigitSplits` | src/main.rs:22 | `"1.5pm"` yields a bare `1`, then `5` with `pm`, since minutes need exactly two digits |
| `TimeScanner.NoWordBoundary` | src/main.rs:22 | `"3 amazing"` yields hour `3` with the space and meridiem `am`, since there is no word boundary |
| `Text.ParseU32` | src/main.rs:244-260 | `str::parse::<u32>`: an optional `+`, then at least one ASCII digit, and a value that fits 32 bits; its contract is stated by `Text.ParseShortDigits` |
| `Text.JoinLines` | src/main.rs:295 | `join("\n")`; its contract is stated by `Text.SplitJoinLines` |
| `Text.ParseShortDigits` | src/main.rs:244-247 | a non-empty string of up to nine ASCII digits always parses as a `u32`, to its decimal value |
| `Text.SplitJoinLines` | src/main.rs:295 | splitting `lines.join("\n")` at newlines gives back exactly the lines, in order, when no line contains a newline |
| `Resolver.Resolve` | src/main.rs:244-283 | one pass of the loop body, in the source's order of checks; its contract is stated by `Resolver.ResolveWellFormed` |
| `Resolver.Hour24` | src/main.rs:276-280 | the hour passed to `and_hms`, 12 more for `pm` whatever the hour; its contract is stated by `Resolver.ResolveWellFormed` and `Resolver.TwelvePmIsTwentyFour` |
| `Resolver.ToPmAm` | src/main.rs:248-255 | the tag is `Am` exactly for `"am"` and `Pm` exactly for `"pm"`; everything else, including `AM`/`PM` and no meridiem, is `PmAm::None` |
| `Resolver.ResolveWellFormed` | src/main.rs:244-283 | for a scanned match: the handler returns exactly when a lower-case meridiem comes with an hour above 12; it skips exactly when there are no minutes and no lower-case meridiem; otherwise the clock is the hour (+12 for `pm`) and the minutes (0 when absent) |
| `Resolver.ParsesNeverAbort` | src/main.rs:244-260 | the hour and minute parses never fail on scanned captures, and both values are below 100 |
| `Resolver.UpperCaseIsUnmarked` | src/main.rs:248-255 | a match with `AM` or `PM` resolves exactly as the same match without a meridiem |
| `Resolver.AcceptedClocks` | src/main.rs:275-283 | the values `and_hms` would reject: with `pm` exactly hour 12 (which becomes 24), with no meridiem any hour from 24 up, and any minute from 60 up; with `am` the hour is always accepted |
| `Resolver.TwelvePmIsTwentyFour` | src/main.rs:276-280 | `12pm` gives hour 24, which `and_hms` does not accept |
| `Resolver.ThirteenWithAndWithoutMeridiem` | src/main.rs:264-267 | `13pm` ends the handler, while `13:00` without a meridiem gives hour 13 |
| `Reaction.Collect` | src/main.rs:243-290 | the clocks the loop renders, or nothing when it ends early by a `return` or by the `and_hms` panic; its contract is stated by `Reaction.CollectAppend`, `Reaction.SkipIsInvisible`, `Reaction.AbortDiscardsAll`, `Reaction.EmitInPlace` and `Reaction.CollectNoneIff` |
| `Reaction.LineText` | src/main.rs:286-289 | one pushed line; its contract is stated by `Reaction.NotificationLines` |
| `Reaction.Notification` | src/main.rs:243-295 | the direct message sent, if any; its contract is stated by `Reaction.ReactionBody`, `Reaction.NotificationLines`, `Reaction.NothingSentIff` and `Reaction.NoDigitSendsEmpty` |
| `Reaction.CollectAppend` | src/main.rs:243-290 | the loop over two runs of matches is the loop over the first, then the loop over the second; it returns early as soon as either does |
| `Reaction.SkipIsInvisible` | src/main.rs:256-263 | a match with no minutes and no meridiem leaves the output exactly as if it were absent |
| `Reaction.AbortDiscardsAll` | src/main.rs:264-283 | a match that makes the handler return, or whose clock makes `and_hms` panic, discards the lines before it, whatever follows |
| `Reaction.EmitInPlace` | src/main.rs:275-289 | an emitted match with a clock `and_hms` accepts adds exactly one clock, at its own place between the clocks before and after it |
| `Reaction.CollectNoneIff` | src/main.rs:243-290 | the handler ends without sending exactly when some match resolves to a return or to a clock `and_hms` rejects |
| `Reaction.ReactionBody` | src/main.rs:242-295 | the loop with its `continue`, its early `return`s and the `and_hms` panic produces exactly the specified message: None when some match ends the handler, otherwise the rendered lines joined by newlines |
| `Reaction.NotificationLines` | src/main.rs:286-295 | a sent message with at least one line splits back into one line per emitted clock, in match order, each reading ``The time `…` was mentioned – in your timezone this is `…`.`` |
| `Reaction.NoDigitSendsEmpty` | src/main.rs:291-295 | text without a digit still gets a direct message, and its body is empty |
| `Reaction.NothingSentIff` | src/main.rs:264-283 | nothing is sent exactly when some match has a lower-case meridiem and an hour above 12, or resolves to a clock `and_hms` rejects (hour 24 or more, minute 60 or more) |
| `Reaction.TwelvePmSendsNothing` | src/main.rs:275-283 | `"at 12pm"` sends nothing: its hour becomes 24 and `and_hms` panics |
| `Reaction.ThreePmExample` | src/main.rs:243-283 | `"Let's meet at 3pm"` yields one line, for the clock 15:00 |
| `Trigger.OnMessage` | src/main.rs:159-183 | the handler's decision; its contract is stated by `Trigger.OnMessageDecision` |
| `Trigger.OnMessageDecision` | src/main.rs:159-183 | a message is reacted to exactly when it does not start with `~`, its author has a timezone, and it contains a digit; the author is asked to set a timezone exactly when the message does not start with `~`, the author has no timezone, is not a bot, and the text contains a digit, and the reply is the prompt for that author's name |
| `Trigger.PromptGreetsAuthor` | src/main.rs:180 | the reply asking for a timezone starts with `Hi ` and the author's name |
| `Trigger.QuietWithoutDigits` | src/main.rs:160-162 | a message starting with `~`, or one with no digit, is ignored |
| `Trigger.MatchesIffDigit` | src/main.rs:171-180 | the match count tested by the handler is positive exactly when the text contains a digit |
| `TimezoneArg.RunEnd` | src/main.rs:23 | a greedy `\w+` run covers only word characters and stops at the first non-word character or at the end |
| `TimezoneArg.PairAtIsLongest` | src/main.rs:23 | at a given start, the pattern `(\w+){1}/(\w+){1}` matches exactly when the scanner finds a match there, and the scanner's match is the longest one |
| `TimezoneArg.TimezoneArgument` | src/main.rs:39-44 | the text `TIMEZONE_REGEX.find` returns, or nothing for the error reply; its contract is stated by `TimezoneArg.TimezoneArgumentSpec` |
| `TimezoneArg.FindFromIsLeftmost` | src/main.rs:39-44 | `find` reports a match that starts where the first possible match starts; when it reports none, the pattern matches nowhere |
| `TimezoneArg.TimezoneArgumentSpec` | src/main.rs:39-44 | the argument is absent exactly when the message holds no `word/word`; otherwise it is the leftmost `word/word` piece, extended as far as its second word goes |
| `TimezoneArg.NestedZoneIsCut` | src/main.rs:23 | `America/Argentina/Buenos_Aires` yields `America/Argentina` |

## Left out

- Digits and word characters are ASCII. The regex crate's `\d` and `\w` also match other Unicode digits and letters. Then `parse::<u32>` could fail on a non-ASCII digit, which is the `return` at src/main.rs:246 and :259. The model keeps those paths, but scanned input never reaches them.
- Anchoring, projection and display (`ymd`, `and_hms`, `with_timezone`, `Display`) come from the chrono and chrono_tz libraries and the IANA timezone database. They are the parameters `anchor` and `project`. The panic of `and_hms` on a clock outside `Resolver.ClockAccepted` is modelled by its effect: the handler ends and nothing is sent. The panic message and the thread unwinding are not modelled.
- Reaction.NothingSentIff: does not cover the other panic of `and_hms`, on a local time that falls in a daylight-saving gap or is ambiguous in the sender's timezone. Whether that happens depends on the timezone database, so `anchor` is total and the model sends a line for such a clock.
- `reaction_add` up to line 239 is not modelled. This covers the bot check, the emoji check, fetching the message, both user lookups, the error messages sent when a user has no timezone, and parsing the stored timezone strings. The model starts with both timezones known.
- Discord I/O is not modelled: reacting, replying and sending direct messages. What would be sent is the returned value (`Notification`, `OnMessage`). The log line printed for an unregistered bot author in `message` is not modelled either.
- Persistence is not modelled: `set_timezone`, `set_bot_timezone` apart from the `TIMEZONE_REGEX` lookup, `user_is_in_database`, `NewUser`, `User`, and src/schema.rs. The user lookup is a flag (`message`) or is assumed done (`reaction_add`).
- `admin_check`, `my_help`, `main`, the connection pool, the `ctx.data` lock and the TCP listener thread are not modelled. server/src/main.rs is not part of this model: it is a bare accept loop.
- `captures_iter` is lazy and the handler may stop early. `ReactionBody` collects all matches before the loop. No side effect depends on the difference.
