# FAQ bot: the line-scan lookup, the FAQ-file choice and the command argument

This project is a Dafny model of the logic in `bot.py`, a Discord bot that answers
employee questions from an FAQ document kept in a Google Drive folder. It covers
three pieces of that file:

- `search_faq`: the question is lower-cased and the FAQ text is split on `'\n'`.
  The lines are scanned in order. The first line whose lower-cased text contains
  the question is the match. The reply is the line after it, or the fixed text
  "Sorry, I can't find the answer to that." when the match is the last line.
  When no line matches, the result is `None`.
- The file-choosing loop of `find_faq_file_in_folder`: over the folder listing,
  the id of the first file whose lower-cased name contains `"faq"`, or `None`.
- The argument of the `!ask` and `!faq` commands in `on_message`: the message
  without its first `len(command) + 1` characters, stripped of whitespace.

Modules:

- `Wrappers` (`wrappers.dfy`): `Option`, for Python's `None`-or-value results.
- `PyStr` (`pystr.dfy`): the Python `str` operations the bot uses. `Lower` is
  `str.lower`, `Split` is `str.split('\n')`, `Join` is `'\n'.join`, `Contains`
  is `sub in s`, `Strip` is `str.strip()`, `SliceFrom` is `s[n:]` and
  `StartsWith` is `str.startswith`.
- `Bot` (`bot.dfy`): the three pieces above. `search_faq` and the file loop
  are methods with `while` loops that `break` at the first hit, as in the
  source. `SearchFaq` is proved equal to the function `Lookup`, and the
  properties of the lookup are lemmas about `Lookup`. The command argument is three
  functions: `CommandArgument`, `AskArgument` and `FaqQuestion`.

Points about what `bot.py` does:

- When no line matches, `search_faq` returns `None`, not the "can't find" text.
  `NoAnswerText` is only returned when the match is on the last line.
- A blank or whitespace-only line after the match is returned as it stands.
  It is not replaced by the "can't find" text.

## Model

| member | source | states |
|---|---|---|
| PyStr.Lower | bot.py:60 | `lower()` keeps the length and maps every character on its own: A-Z to a-z, every other character unchanged |
| PyStr.LowerIdempotent | bot.py:60 | lower-casing text that is already lower-cased changes nothing |
| PyStr.Contains | bot.py:66 | the substring test `in`: a match needs the question to be no longer than the line, and for equal lengths it holds exactly when the two are equal |
| PyStr.StartsWith | bot.py:114 | `startswith(prefix)` holds exactly when the message is the prefix followed by more text |
| PyStr.SliceFrom | bot.py:115 | `message[n:]` is the suffix of the message of length `len(message) - n`, and empty once `n` passes the end |
| PyStr.ContainsEmpty | bot.py:66 | the empty question is a substring of every line (`'' in line` holds) |
| PyStr.Split | bot.py:61 | `split('\n')` gives exactly one more line than the text has newlines, so at least one line; no line contains a newline |
| PyStr.JoinSplit | bot.py:61 | joining the split lines with `'\n'` gives back the FAQ text, so splitting loses nothing |
| PyStr.SplitJoin | bot.py:61 | splitting newline-free lines joined with `'\n'` gives back those lines |
| PyStr.SplitAppend | bot.py:61 | the lines of `a + '\n' + b` are the lines of `a` followed by the lines of `b` |
| PyStr.SplitSingleLine | bot.py:61 | text without a newline splits into itself alone |
| PyStr.Strip | bot.py:109 | `strip()` removes all of the whitespace before and after a slice of the input and nothing else: the result is a slice with only whitespace around it, and it neither starts nor ends with whitespace |
| PyStr.StripOfUnique | bot.py:109 | only one string is the strip of a given input, so the contract of `strip()` fixes its result |
| PyStr.StripIdempotent | bot.py:115 | a general property of the `strip()` applied to the argument: stripping its result again changes nothing |
| Bot.FirstMatch | bot.py:65-69 | the scan finds no index exactly when no line contains the lower-cased question; an index it finds is the first matching line in document order |
| Bot.Lookup | bot.py:59-71 | the value `search_faq` returns; its contract says every non-`None` result is one of the split lines or the "can't find" text; `LookupNoneIff` and `LookupFirstMatch` state when it is `None` and which line it is |
| Bot.SearchFaq | bot.py:59-71 | the loop that breaks at the first matching line returns exactly `Lookup(question, faq_content)` |
| Bot.LookupNoneIff | bot.py:62-71 | the result is `None` exactly when no line's lower-cased text contains the lower-cased question |
| Bot.LookupFirstMatch | bot.py:65-69 | when line `i` is the first match, the result is line `i + 1` unchanged (even when blank), or the "can't find" text when line `i` is the last line |
| Bot.LookupIgnoresLaterText | bot.py:65-69 | once the first match and the line after it are in the text, FAQ lines appended after a newline never change the result |
| Bot.LookupIgnoresQuestionCase | bot.py:60 | asking the lower-cased question gives the same result as asking the question |
| Bot.LookupDependsOnMatchesAndAnswers | bot.py:60-68 | two FAQ texts with the same number of lines, the same matching lines and the same lines after matching lines give the same result |
| Bot.EmptyQuestionMatchesFirstLine | bot.py:65-68 | the empty question matches line 0: the result is line 1, or the "can't find" text when the FAQ has no newline |
| Bot.NoMatchIsNone | bot.py:62-71 | a non-empty question against an empty FAQ gives `None`, not the "can't find" text |
| Bot.FindFaqFile | bot.py:30-39 | the result is `None` exactly when no file name contains "faq" in any case; otherwise it is the id of the first such file in listing order |
| Bot.FirstFaqFileUnique | bot.py:33-37 | at most one file is the first with an FAQ name, so the chosen id is determined by the listing |
| Bot.CommandArgument | bot.py:115 | `message[len(command + ' '):].strip()`: the slice after the command and one more character, with all of its surrounding whitespace removed |
| Bot.FaqQuestion | bot.py:114-115 | a question exists exactly when the message starts with `!faq`, and it is the slice from index 5 with all of its surrounding whitespace removed |
| Bot.AskArgument | bot.py:108-109 | an argument exists exactly when the message starts with `!ask`, and it is the slice from index 5 with all of its surrounding whitespace removed |
| Bot.FaqQuestionOfMessage | bot.py:114-115 | for a message `"!faq" + c + rest`, the question given to `search_faq` is `rest` stripped; the fifth character `c` is dropped whatever it is |
| Bot.BareFaqCommand | bot.py:114-115 | the bare message "!faq" gives the empty question, because a slice past the end is empty |
| Bot.BareAskCommand | bot.py:108-109 | the bare message "!ask" gives the empty argument |
| Bot.AskArgumentOfMessage | bot.py:108-109 | for a message `"!ask" + c + rest`, the text given to the responder is `rest` stripped |
| Bot.CommandsExclusive | bot.py:108-115 | no message starts with both `!ask` and `!faq`, so at most one of the two branches runs |

## Left out

- PyStr.Lower: models `str.lower()` on the ASCII letters only. Python also lower-cases other scripts, and a few characters lower-case to two characters.
- The Discord client, its intents, the `on_ready` and `on_message` event handlers and `client.run` (bot.py:81-120) are asynchronous network I/O. Only the argument slicing inside `on_message` is modelled. Ignoring the bot's own messages (bot.py:104-105) and sending the reply are not modelled.
- `generate_conversational_response` (bot.py:74-78) is one call into the OpenAI API, with no logic of its own.
- `download_faq_file` (bot.py:42-56) is a chunked Drive download with a progress print. The Drive `list()` query in `find_faq_file_in_folder` (bot.py:23-28) is a network call. Its result becomes the `files` parameter of `FindFaqFile`.
- google_drive_auth.py is OAuth flow, token refresh and `token.json` file I/O in third-party libraries.
- The module-level `faq_content`, which stays undefined when no FAQ file is found (bot.py:93-97, 116), is process state. The FAQ text is an explicit parameter of `SearchFaq` and `Lookup` instead.
- Loading the `.env` file and the environment variables (bot.py:11-16) is configuration I/O.
- The `print` of the chosen file name (bot.py:36) is console output.
