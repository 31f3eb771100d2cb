# Numerology compatibility bot: the scoring engine and the conversation state

This project models the core of a chat bot that scores the "compatibility" of
two names or two birth dates with a toy numerology, all of it in `bot.py`:

- the letter table `NUMEROLOGY_VALUES` (Cyrillic and Latin capitals mapped to
  1..9) and the keyword table `COMPATIBILITY_KEYWORDS`;
- `reduce_to_single_digit`, which replaces a number by its digit sum while it is
  above 9;
- `calculate_name_number`, which upper-cases a name, adds the table values of
  the letters the table knows, skips every other character, and reduces the sum;
- `calculate_birthdate_number`, which tries the formats `%d.%m.%Y`, `%d/%m/%Y`,
  `%d-%m-%Y` and `%Y-%m-%d` in turn with `datetime.strptime`, adds day, month
  and year of the first that parses and reduces the sum, or gives `None`;
- `calculate_compatibility`, which reduces the sum of two scores, derives a
  percentage from it and looks up a description and keywords, with fallbacks;
- the text handler `handle_message` with its separator rule (`,` then `;` then
  ` и ` then `&`, otherwise whitespace) and the per-user `awaiting` entry that
  the `/name` and `/date` commands and the menu buttons set.

Modules, leaf first: `Wrappers` (the `Option` type), `DigitalRoot`, `Letters`,
`NameScore`, `DateScore`, `Compatibility`, `Splitting`, `Conversation`, and
`WorkedInputs` (concrete inputs worked out by proof).

The loops of the source are methods with loop invariants, each proved against a
function that specifies it (`ReduceToSingleDigit` against `Reduce`,
`CalculateNameNumber` against `NameNumber`, `CalculateBirthdateNumber` against
`DateNumber`, `SplitItems` against `SplitRule`). The per-user `context.user_data`
entry is the class `Conversation.UserData`, whose `awaiting` field is
`None`, `Some(Names)` or `Some(Dates)`. The transport keeps one such object per
user. `HandleMessage` answers with a reply kind and updates that field exactly
as the function `Conversation.Respond` prescribes.

`datetime.strptime` is not treated as a black box. For these formats it builds a
regular expression. `%d` becomes `3[01]|[12]\d|0[1-9]|[1-9]| [1-9]`, `%m` becomes
`1[0-2]|0[1-9]|[1-9]` and `%Y` becomes `\d\d\d\d`. The separators stand for
themselves. It matches that expression at the start of the text, trying the
alternatives in order and backtracking. It fails when the match leaves
characters over. A format that repeats a directive is refused outright,
because each directive becomes a named group and a name may not repeat. It then rejects dates the calendar lacks: year 0, 31 April,
29 February outside leap years. Month 13 and day 32 never reach that check:
`%m` can take only the "1" of "13" and `%d` only the "3" of "32", and the
separator or the end check that follows then fails. `DateScore` models exactly this:
`MatchAt`/`TryBranches` are the ordered, backtracking matcher, and `Strptime`
adds the repeated-directive check, the end check and the calendar check.

Where the code and its own comments disagree, the model follows the code:

- The docstring of `reduce_to_single_digit` promises a digit 1..9. The reducer
  returns 0 for 0, and a name without any table letter scores 0. That 0 then
  reaches `calculate_compatibility`, whose fallback description and keywords
  are therefore reachable (`Compatibility.NamesFallback`).
- The two items are whatever the split gives. An empty piece is accepted:
  `"Anna,"` compares `Anna` with the empty name. Only fewer than two pieces
  make the bot ask again.
- The `awaiting` entry is removed only after a result is sent. "Enter two
  items" and "bad date format" keep it, so the user can simply retry.
- Month 13 and day 32 are rejected by the regular expression `strptime`
  builds, and day 31 of a 30-day month and other impossible dates by its
  calendar check.

## Model

| member | source | states |
|---|---|---|
| `DigitalRoot.ReduceToSingleDigit` | bot.py:46-50 | the loop ends with `Reduce(n)`, a value in 0..9 that is 0 exactly when n is 0 and `1 + (n - 1) % 9` otherwise |
| `DigitalRoot.DigitSumBounded` | bot.py:48-49 | the digit sum never exceeds the number and is strictly smaller above 9, so the loop terminates |
| `DigitalRoot.DigitSumMod9` | bot.py:49 | the digit sum keeps the residue modulo 9 (casting out nines) |
| `DigitalRoot.ReduceIsRoot` | bot.py:46-50 | repeated digit summing equals the closed-form digital root (0 for 0, else `1 + (n - 1) % 9`) |
| `DigitalRoot.ReduceRange` | bot.py:46-50 | the reducer's result lies in 0..9 and is 0 exactly for input 0, not in 1..9 as the docstring says |
| `DigitalRoot.ReduceIdempotent` | bot.py:46-50 | reducing a reduced value changes nothing |
| `Letters.TableIsAlphabetPosition` | bot.py:22-30 | the table's keys are exactly the capitals A..Z, А..Я and Ё, and each maps to 1 + (its place in its alphabet mod 9), Ё right after Е |
| `Letters.LetterValue` | bot.py:56-57 | a character adds at most 9, and adds 0 exactly when it is not a key of the table |
| `Letters.UpperIdempotent` | bot.py:55 | upper-casing an upper-cased character changes nothing |
| `Letters.LowerLettersAreKeys` | bot.py:55-56 | every lower-case Latin or Russian letter upper-cases to a table key, and the keys upper-case to themselves |
| `NameScore.UpperString` | bot.py:55 | `name.upper()` keeps the length and upper-cases character by character; Python can lengthen the text (ß, ligatures), see the `str.upper()` line under "Left out" |
| `NameScore.CalculateNameNumber` | bot.py:52-58 | the accumulating loop returns `NameNumber(name)`, the reduced sum of the table values of the upper-cased name, a digit 0..9 |
| `NameScore.LetterSumAppend` | bot.py:54-57 | the letter sum of a concatenation is the sum of the letter sums |
| `NameScore.NameNumberRange` | bot.py:52-58 | a name's number lies in 0..9 |
| `NameScore.NameNumberZero` | bot.py:54-58 | a name scores 0 exactly when none of its characters upper-cases to a table key |
| `NameScore.NameNumberCaseInsensitive` | bot.py:55 | upper-casing the name beforehand does not change its number |
| `NameScore.SameUpperSameNumber` | bot.py:55 | two names equal up to case score the same |
| `NameScore.InsertUnmapped` | bot.py:55-57 | inserting a character that is not in the table, anywhere, leaves the number unchanged |
| `NameScore.Mapped` | bot.py:56 | the characters the table knows, never more than the text has |
| `NameScore.LetterSumMapped` | bot.py:56-57 | only the characters the table knows contribute to the sum |
| `NameScore.MappedLettersDecide` | bot.py:54-58 | two names whose upper-cased texts hold the same table letters, counted with multiplicity and in any order, score the same |
| `NameScore.LetterSumPermutation` | bot.py:54-57 | the letter sum depends only on the multiset of characters |
| `NameScore.NameNumberPermutation` | bot.py:54-58 | rearranging the characters of a name does not change its number |
| `DateScore.CalculateBirthdateNumber` | bot.py:60-85 | the loop over the four formats, stopping at the first that parses, returns `DateNumber(s)`: `None` when no format parses, otherwise a digit 1..9 |
| `DateScore.StrptimeValid` | bot.py:69 | whatever a format accepts is a calendar date: year 1..9999, month 1..12, a day the month has |
| `DateScore.FirstParseValid` | bot.py:67-72 | the first successful parse is a calendar date |
| `DateScore.DateNumberRange` | bot.py:77-82 | a date's number, when there is one, is a digit 1..9 (0 cannot occur since years start at 1) |
| `DateScore.CompiledFormats` | bot.py:64 | the four formats are day-sep-month-sep-year with `.`, `/`, `-`, and year-month-day with `-` |
| `DateScore.StrptimeRendered` | bot.py:69 | for day 1..31 and month 1..12, a format holding day, month and year reads back the date it writes with two-digit day and month and four-digit year: the date itself when the calendar has it and no directive repeats, `None` otherwise |
| `DateScore.RepeatedDirectiveRefused` | bot.py:69 | a format that repeats a directive, such as `%d.%d`, is refused whatever the text |
| `DateScore.FormatSingleDirectives` | bot.py:64 | none of the four formats repeats a directive |
| `DateScore.OtherFormatRejects` | bot.py:64-72 | a date written in one of the four formats is rejected by every other format, so no earlier format intercepts it |
| `DateScore.StrptimeRejectsUnfit` | bot.py:69 | a format whose directives are separated by non-digit literals rejects a two-digit day outside 1..31 or month outside 1..12 already in the regular expression |
| `DateScore.FullMatchFits` | bot.py:69 | for a pattern whose literals are non-digits and whose directives are each followed by a literal or stand last: when the regular expression matches the whole of a rendering with two-digit day and month, day and month lie in 1..31 and 1..12 wherever the pattern reads them |
| `DateScore.WrittenStrptime` | bot.py:69 | for every day and month below 100 and year below 10000, the format a date is written in reads it back to itself when the calendar has it, and to `None` otherwise |
| `DateScore.RoundTrip` | bot.py:64-75 | a date with two-digit day and month and four-digit year, written in any of the four formats, parses back to itself when the calendar has it, and to `None` otherwise, day 00 or 32..99 and month 00 or 13..99 included |
| `DateScore.ScoreOfWritten` | bot.py:60-82 | a date with two-digit day and month and four-digit year, written in any of the four formats, scores the reduced sum of its day, month and year, or `None` when day, month or calendar rule it out |
| `DateScore.HelpExamples` | bot.py:153-157 | "15.08.1990", "15/08/1990", "15-08-1990" and "1990-08-15" all score 6 (15 + 8 + 1990 = 2013) |
| `DateScore.LeapDayRule` | bot.py:69 | 29 February parses, in every format, exactly in leap years |
| `DateScore.ThirtiethFebruaryRejected` | bot.py:69-75 | 30 February gives `None` in every year and format |
| `DateScore.NoLeadingDigit` | bot.py:67-75 | a text that does not start with a digit or a space matches no format and gives `None`, not an error |
| `DateScore.NotADate` | bot.py:74-75 | "not-a-date" gives `None` |
| `Compatibility.KeywordsOr` | bot.py:112 | `.get` returns the table's keywords, never equal to the fallback keywords, exactly for the keys 1..9, and the default for every other number |
| `Compatibility.KeywordsTable` | bot.py:33-43 | the keyword table holds exactly the numbers 1..9, none with the fallback text |
| `Compatibility.CalculateCompatibility` | bot.py:87-113 | the combined number is the reduced sum, in 0..9; the percentage lies in 30..99; the fallback description and keywords appear exactly when both scores are 0 |
| `Compatibility.PercentageTable` | bot.py:104-106 | for numbers 0..9 the percentage is 11 times the number, plus 30 for 0, 1 and 2: 30, 41, 52, 33, 44, 55, 66, 77, 88, 99 |
| `Compatibility.PercentageInjective` | bot.py:104-106 | different numbers 0..9 get different percentages |
| `Compatibility.Symmetric` | bot.py:89 | swapping the two scores gives the same result |
| `Compatibility.CombinedNumber` | bot.py:89 | the combined number is the digital root of the sum of the two scores |
| `Compatibility.NamesFallback` | bot.py:111-112 | two names get the fallback description and keywords exactly when neither has a table letter |
| `Compatibility.DatesNeverFallback` | bot.py:111-112 | two dates never get the fallback, nor the 30 % of number 0 |
| `Splitting.Strip` | bot.py:233 | `strip()` returns the slice between leading and trailing whitespace; it neither starts nor ends with whitespace and is empty exactly for all-whitespace text |
| `Splitting.StripIdempotent` | bot.py:265-266 | stripping twice is stripping once |
| `Splitting.FindFrom` | bot.py:251 | the search returns the first occurrence of the separator from a position on, or none when there is none |
| `Splitting.ContainsIff` | bot.py:251 | `sep in text` holds exactly when some slice of the text equals the separator |
| `Splitting.Split` | bot.py:252 | `split(sep)` gives at least one piece, so the first piece always exists |
| `Splitting.SplitFirstCut` | bot.py:252 | when the separator occurs, the first piece is the text up to its leftmost occurrence, and the remaining pieces are the split of what follows that occurrence |
| `Splitting.SplitJoin` | bot.py:252 | joining the pieces of `split(sep)` with `sep` gives the text back |
| `Splitting.SplitPiecesClean` | bot.py:252 | no piece of `split(sep)` contains the separator |
| `Splitting.SplitCount` | bot.py:252 | `split(sep)` gives two or more pieces exactly when the separator occurs |
| `Splitting.SplitWhitespace` | bot.py:255 | `split()` gives non-empty pieces without whitespace |
| `Splitting.SplitWhitespaceKeepsText` | bot.py:255 | the pieces of `split()` hold every non-whitespace character, in order |
| `Splitting.SplitWhitespaceStep` | bot.py:255 | a non-empty run without whitespace, followed by whitespace or by the end, is the first piece of `split()` |
| `Splitting.SplitWhitespaceLeadingSpace` | bot.py:255 | a leading whitespace character of any kind (space, tab, newline, no-break space or any other `isspace` character) adds no piece |
| `Splitting.SplitWhitespaceJoin` | bot.py:255 | words joined by single spaces split back into the same words |
| `Splitting.SplitWithFirst` | bot.py:247-253 | the separator used is the first one in the list that occurs in the text; it cuts at the leftmost occurrence, then again in the rest |
| `Splitting.SplitWithNone` | bot.py:254-255 | when no separator occurs the text is split on whitespace |
| `Splitting.SplitWithTooFew` | bot.py:247-257 | fewer than two pieces result exactly when no separator occurs and the text has fewer than two words |
| `Splitting.SplitItems` | bot.py:247-255 | the `for ... else` loop over the separators returns `SplitRule(text)` |
| `Conversation.UserData.constructor` | bot.py:236 | a user who has not chosen anything has no `awaiting` entry |
| `Conversation.UserData.NameCommand` | bot.py:163-171 | `/name` sets `awaiting` to names |
| `Conversation.UserData.DateCommand` | bot.py:173-181 | `/date` sets `awaiting` to dates |
| `Conversation.UserData.ButtonPressed` | bot.py:183-229 | the `name_comp` and `date_comp` buttons set the mode; `help` and any other data leave it unchanged |
| `Conversation.UserData.HandleMessage` | bot.py:231-345 | the reply and the new `awaiting` are those `Respond` gives for the old state and the text |
| `Conversation.UserData.AnswerNames` | bot.py:245-290 | the names branch answers `RespondNames` of the stripped text and drops `awaiting` exactly after a result |
| `Conversation.UserData.AnswerDates` | bot.py:292-345 | the dates branch answers `RespondDates` of the stripped text and drops `awaiting` exactly after a result |
| `Conversation.ClearedOnlyByResult` | bot.py:245-345 | `awaiting` is removed exactly when a result is sent; every other reply keeps it |
| `Conversation.NoModeNoCalculation` | bot.py:236-243 | without an `awaiting` entry the bot only asks the user to choose, and the state stays empty |
| `Conversation.ReplyFitsMode` | bot.py:236-345 | the "choose" reply comes exactly without a mode; names replies only in names mode, date replies only in dates mode |
| `Conversation.TooFewItems` | bot.py:247-263 | the bot asks for two items exactly when the stripped text has no separator and fewer than two words |
| `Conversation.NamesResultScores` | bot.py:265-273 | a names result scores the first two pieces, stripped; extra pieces are ignored; the compatibility is that of the two name numbers |
| `Conversation.DatesOutcome` | bot.py:312-325 | with two pieces, the dates reply is "bad format" exactly when one stripped piece is no date; a result has both numbers in 1..9 and no fallback |
| `Conversation.SwappedNames` | bot.py:265-273 | swapping the two names swaps the two numbers and keeps the compatibility |
| `Conversation.TwoWords` | bot.py:247-290 | two separator-free words separated by a space are scored as the two names, and the mode is left |
| `Conversation.TwoDates` | bot.py:294-345 | two separator-free words separated by a space are scored as two dates, or give "bad format" and keep the mode |
| `Conversation.OneWord` | bot.py:255-263 | one separator-free word makes the bot ask again and keeps the mode |
| `Conversation.TrailingComma` | bot.py:250-270 | "word," is accepted: the reply scores the word against the empty name, which scores 0, and the mode is left |
| `Conversation.CommaSpaced` | bot.py:250-270 | two plain words joined by ", " are scored as the two names, the space after the comma stripped, and the mode is left |
| `WorkedInputs.AnnaScore` | bot.py:52-58 | "Anna" scores 3 |
| `WorkedInputs.JohnScore` | bot.py:52-58 | "John" scores 2 |
| `WorkedInputs.AnnaCyrillicScore` | bot.py:52-58 | "Анна" scores 5 |
| `WorkedInputs.IvanScore` | bot.py:52-58 | "Иван" scores 2 |
| `WorkedInputs.AnnaJohn` | bot.py:245-290 | "Anna John" gives 3 and 2, combined 5 at 55 %, and leaves names mode |
| `WorkedInputs.AnnaComma` | bot.py:250-290 | "Anna," gives 3 and 0, combined 3 at 33 % |
| `WorkedInputs.AnnaIvanComma` | bot.py:245-290 | "Анна, Иван" gives 5 and 2, combined 7 at 77 % with description 7, and leaves names mode |
| `WorkedInputs.NameSession` | bot.py:231-290 | after `/name`, "OnlyOneWord" makes the bot ask again, then "Anna John" gives 3 and 2, combined 5 at 55 %, and the `awaiting` entry is gone |
| `WorkedInputs.OnlyOneWord` | bot.py:255-263 | "OnlyOneWord" makes the bot ask again and keeps names mode |
| `WorkedInputs.SameBirthday` | bot.py:292-345 | "15.08.1990 1990-08-15" gives 6 and 6, combined 3 at 33 %, and leaves dates mode |
| `WorkedInputs.NotADatePair` | bot.py:316-325 | "15.08.1990 not-a-date" gives "bad format" and keeps dates mode |

## Left out

- Telegram I/O: `reply_text`, `edit_message_text`, `query.answer`, the inline keyboard and the Markdown wording of every message (bot.py:116-161, 183-229, 276-289, 331-344). Replies are modelled as kinds carrying the computed values. The `/start` and `/help` commands only send text and never touch the state.
- `error_handler`, the logging set-up and the log call in the date scorer, and `main` with its environment variables, webhook and polling (bot.py:15-19, 84, 347-405): transport and configuration.
- `async`/`await`: only the host's dispatch mechanism. Each update is handled to completion.
- Sends are assumed to succeed. In the source a failing send raises before the following setter (bot.py:171, 181, 195, 204) or `pop` (bot.py:290, 345) runs, so `awaiting` keeps its old value; `Conversation.ClearedOnlyByResult` and the state the `UserData` methods promise rest on this.
- Per-user keying of `context.user_data` is done by the host. The model holds one `UserData` object per user.
- `str.upper()` is modelled for a..z, а..я and ё only. Every other character is left as it is. Some other characters upper-case onto table keys and score in Python but not in the model, for example dotless ı, long ſ, ß, ligatures such as ﬀ, ŉ and ǰ, and the Cyrillic Extended-C letters U+1C80..U+1C86. Some of them also make Python's result longer than the text (ß becomes "SS", ﬀ becomes "FF"), while `NameScore.UpperString` always keeps the length.
- `NameScore.UpperString`: promises the same length and a character-by-character upper-casing, which Python's `upper()` does not keep for ß and the ligatures, for the reason above.
- `NameScore.NameNumberCaseInsensitive`: states case-insensitivity only for the letters `Letters.Upper` covers, for the reason above.
- `str.isspace()` is modelled as its fixed set of whitespace code points: ASCII 9-13 and 28-32, U+0085, U+00A0, U+1680, U+2000-U+200A, U+2028, U+2029, U+202F, U+205F, U+3000. `strip()` and `split()` use this set.
- `\d` in the regular expression `strptime` builds matches any Unicode decimal digit, and `int()` reads such digits. The model accepts the ASCII digits 0-9 only, so a date written in, say, Arabic-Indic digits parses in Python but not in the model.
- The other features of `_strptime` are left out because none of the four formats uses them: case-insensitive matching, whitespace in a format becoming `\s+`, and the remaining directives.
- A format that repeats a directive makes CPython raise `re.error`, which is not a `ValueError`, so `calculate_birthdate_number` would leave its loop for the outer handler. `DateScore.Strptime` gives `None` for such a format and the loop tries the next one. The four formats of bot.py:64 repeat no directive (`DateScore.FormatSingleDirectives`), so the scorer is unaffected.
- The `except Exception` path of the date scorer (bot.py:83-85): in the model nothing can raise, and every failure is `None` (bot.py:74-75).
- The wording of the nine compatibility descriptions and of their fallback. They are modelled as distinct constants `Described(1..9)` and `SpecialCompatibility`. The keyword strings are kept verbatim.
