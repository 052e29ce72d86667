# flora: string tables, command filter, markup parsers and plugin loader in Dafny

This project models the self-contained logic of the WinxMusic Telegram bot. It has three parts.

- **String tables and the multilingual command filter** (`strings/__init__.py`):
  - the `get_command`, `get_string` and `get_helpers` lookups with their fallback languages;
  - the start-up loading of the command, helper and language tables, which includes:
    - checking the command tables against the English keys;
    - filling each language table from the English one;
    - the "name" check;
  - the `command()` filter, which covers:
    - prefix normalisation;
    - collecting the localised and English command words;
    - the ordered candidate list;
    - the anchored command regular expression, with its optional `@username` and the following whitespace or end of text;
    - removing the matched command with `re.sub`;
    - the `finditer` tokeniser that fills `message.command`.
- **Text parsers of the utility module** (`WinxMusic/utils/functions.py`):
  - `extract_text_and_keyb`: backtick unwrapping, `~~` protection, the single-`~` split, the `\[.+\,.+\]` button search and the label→URL keyboard;
  - `check_format`;
  - `time_converter`;
  - `get_data_and_name`.
- **The bot class** (`WinxMusic/core/bot.py`):
  - the plugin name filter and dotted module path of `load_plugin`;
  - the `loaded_plug_counts` counter;
  - the directory walk of `load_plugins_from` as a generator that ends at the first failing plugin;
  - the `LOG_GROUP_ID` normalisation;
  - the exception classification of the `on_message` wrapper.

The files:

- `text.dfy` (module `Text`): the Python string operations used throughout, on `seq<char>`:
  - `str.isspace`, `strip`, `lstrip`, `rstrip`;
  - `str.replace`, `split` on one character, `join`, `in`;
  - `isdigit` and `int`;
  - ASCII case folding.
- `string_tables.dfy` (module `StringTables`):
  - YAML tables as maps from keys to values;
  - directories as listings plus file contents;
  - the lookups, the English merge, the validation predicates and their loop lemmas;
  - the class `Strings`, whose fields are the four module-level dicts. Its methods fill them in the order the module does.
- `command_filter.dfy` (module `CommandFilter`): the `command()` filter.
  - Its loops over the command keys and over the candidates are methods, proved against specification functions.
- `markup.dfy` (module `Markup`): the parsers of the utility module.
  - `extract_text_and_keyb` and its keyboard loop are methods, proved against the function `Extract`.
- `plugin_bot.dfy` (module `PluginBot`):
  - path functions;
  - the class `Bot` with the `loadedPlugCounts` field and the load methods;
  - the log-group normalisation and the wrapper's classification.

Inputs that come from outside the code are parameters:

- the chat's language code;
- the bot's username;
- the directory listings and parsed YAML contents;
- the set of plugin files whose module raises when run;
- the URL recogniser `get_urls_from_text`, as a predicate `isUrl`;
- the current time, as an integer number of minutes;
- the enumeration order of the prefix set.

Behaviour of the code as written, stated as lemmas:

- **Bare words give empty tokens.** Unquoted words of the message text become empty entries of `message.command`, because only the quoted groups are read (`CommandFilter.BareWordsAreEmpty`).
- **An escaped quote ends a double-quoted token.** An escaped `\"` inside double quotes ends the token, and the backslash stays in it (`CommandFilter.EscapedQuoteEndsToken`). Inside single quotes it is unescaped (`CommandFilter.EscapedQuoteInSingleQuotes`).
- **A missing key matches the bare prefix.** A command key missing from a table contributes the empty command word. With English and the prefix `/`, the message `/` alone is then accepted as that command (`CommandFilter.MissingKeyMatchesBarePrefix`).
- **The username may be glued to the command.** Because the `@` is optional, a bot named `bot` accepts `/startbot` as `/start` (`CommandFilter.CommandThenUser`, `CommandFilter.StartBotMatchesStart`).
- **The empty-prefix fallback.** With the prefix set empty, a prefixed candidate is matched without a prefix (`CommandFilter.NoPrefixesMatchBare`).
- **The Hindi tables.**
  - When `en.yml` exists, `hi.yml` is not loaded at all: the language loop skips it and the only load of it is the fallback for a missing `en.yml`. There is then no Hindi language table, and `get_string("hi")` gives the English one (`StringTables.HindiReadsEnglish`).
  - Without `langs/en.yml`, the Hindi file is loaded. Reading `en.yml` on the following line then fails all the same, so loading never succeeds without it (`StringTables.Strings.LoadLanguages`).
- **A written `¤¤` becomes `~~`.** The body of a welcome message is shielded by turning `~~` into `¤¤`, and every `¤¤` is turned back afterwards, including one the user wrote. The body of `a¤¤b~[x,y]` is `a~~b` (`Markup.WrittenPlaceholderRestored`).
- **An empty time string raises.** `time_converter("")` raises `IndexError` before any check. It does not give the "Incorrect time specified." reply (`Markup.TimeConverter`, result `EmptyIndexError`). The model follows the code here.
- **No reply in the one-word branch raises.** In `get_data_and_name`, a note command with only a name and no replied message reads an attribute of `None` and raises `AttributeError` (`Markup.GetDataAndName`).
- **A failing plugin ends the process.** A plugin whose module raises makes `load_plugin` call `exit()`, so the `yield` for that file is never reached and nothing after it is loaded. The model's run is the yielded results followed by one `Failed` entry that stands for the exit (`PluginBot.Bot.LoadPluginsFrom`).

## Model

| member | source | states |
|---|---|---|
| Text.StripSlice | WinxMusic/utils/functions.py:95 | `strip` removes exactly a run of leading and a run of trailing whitespace and keeps the slice between them |
| Text.StripUntouched | WinxMusic/utils/functions.py:111 | a string that neither starts nor ends with whitespace is unchanged by `strip` |
| Text.ReplaceAbsent | WinxMusic/utils/functions.py:101-105 | `str.replace` of a pattern that does not occur returns the string unchanged |
| Text.JoinSplit | WinxMusic/utils/functions.py:103 | joining the pieces of `split(sep)` with `sep` gives the original string back |
| Text.SplitJoin | WinxMusic/utils/functions.py:110 | splitting a join of separator-free parts gives exactly those parts back |
| Text.SplitTwo | WinxMusic/utils/functions.py:103 | a string that splits into two parts is the first part, the separator, then the second part |
| Text.DigitsRoundTrip | WinxMusic/utils/functions.py:290-297 | `int()` of the decimal digits of `n` is `n` |
| Text.ContainsChar | WinxMusic/utils/functions.py:124 | the substring test for a one-character string is membership of that character |
| Text.IsSpace | WinxMusic/utils/functions.py:95 | the characters `str.isspace` accepts (and the regular-expression `\s`): the ASCII whitespace and separators and the Unicode spaces and line separators |
| Text.Strip | WinxMusic/utils/functions.py:95 | `str.strip()`: the result has no whitespace at either end and is no longer than the input; `StripSlice` places it in the input |
| Text.Replace | WinxMusic/utils/functions.py:101-105 | `str.replace`: scanning left to right, each non-overlapping occurrence of the pattern is replaced and every other character kept; defined by recursion, its meaning is given by `ReplaceAbsent`, `ReplacePeel` and `ReplaceFirst` |
| Text.ReplaceFirst | WinxMusic/utils/functions.py:125 | the first occurrence of the pattern is replaced where it stands, the text before it kept and the rest replaced in turn |
| Text.Split | WinxMusic/utils/functions.py:103 | `str.split(sep)`: at least one part and no part contains the separator; `JoinSplit` and `SplitJoin` make it the inverse of `Join` |
| Text.Join | WinxMusic/core/bot.py:217 | `sep.join(parts)`, used to build the relative path of a plugin file; the partner of `Split` |
| Text.DigitsValue | WinxMusic/utils/functions.py:290-297 | `int()` of a string of decimal digits, most significant first; `DigitsRoundTrip` makes it the inverse of writing a number in decimal |
| Text.IsDigit | WinxMusic/utils/functions.py:290 | an ASCII decimal digit, the characters `isdigit()` accepts in the model |
| Text.AllDigits | WinxMusic/utils/functions.py:290 | `isdigit()` of the digit part, with every character a digit; the empty case is handled separately, since `"".isdigit()` is false |
| Text.Truthy | strings/__init__.py:147-151 | Python truth of an optional string: present and non-empty, as `message.text or message.caption` and `if not text` test it |
| StringTables.Lookup | strings/__init__.py:24-39 | the table of the requested language if present, otherwise the default language's table, and none (a KeyError) when the default is missing too |
| StringTables.GetCommand | strings/__init__.py:24-27 | for a loaded language exactly its command table, otherwise the "en" table, and nothing when neither is loaded; always defined once "en" is loaded |
| StringTables.GetString | strings/__init__.py:30-33 | for a loaded language exactly its string table, otherwise the "en" table, and nothing when neither is loaded; always defined once "en" is loaded |
| StringTables.GetHelpers | strings/__init__.py:36-39 | for a loaded language exactly its helper table, otherwise the "hi" table, and a KeyError when neither is loaded |
| StringTables.MissingKeys | strings/__init__.py:57-58 | the missing English keys are English keys, and there are none exactly when the table has every English key |
| StringTables.IsYaml | strings/__init__.py:63-64 | the `filename.endswith(".yml")` test that picks the table files of each directory |
| StringTables.CommandsComplete | strings/__init__.py:56-60 | every command table has every key of the English one, so the check of missing keys never exits; `Uncovered` and `CoveredAll` tie it to the loop |
| StringTables.Merged | strings/__init__.py:87-90 | after the merge the table has its own keys plus every English key; its own values are kept and only absent keys take the English value |
| StringTables.MergeEnglish | strings/__init__.py:88-90 | the merge loop over the English keys produces exactly the merged table |
| StringTables.Code | strings/__init__.py:53 | the language code of `X.yml` is the name without its `.yml` suffix, so appending `.yml` gives the file name back |
| StringTables.CodeInjective | strings/__init__.py:53 | two `.yml` file names with the same language code are the same file |
| StringTables.HoldsAll | strings/__init__.py:51-54 | after the listing loop every `.yml` file not skipped is stored under its language code with its (merged) contents |
| StringTables.CoveredAll | strings/__init__.py:56-60 | if no file stopped the command loop, every command table has all English keys |
| StringTables.Uncovered | strings/__init__.py:56-60 | one command table lacking an English key makes the command tables incomplete |
| StringTables.NamedAll | strings/__init__.py:92-93 | after the language loop every language file not skipped has its "name" recorded under its code |
| StringTables.NamesPresent | strings/__init__.py:92-99 | every language file other than `en.yml` and `hi.yml` has a "name" once completed from English, so reading it never raises the `KeyError` that exits; `NameMissing` and `NamesRecorded` tie it to the loop |
| StringTables.NameMissing | strings/__init__.py:92-99 | a language file other than en/hi whose merged table has no "name" makes the language set invalid |
| StringTables.NamesRecorded | strings/__init__.py:92-99 | when the loop recorded a name for every file other than en/hi, every such file has a "name" |
| StringTables.TranslationsDone | strings/__init__.py:82-99 | the loop's invariants at its end give the loaded languages: "en" is the English table, every other file except hi.yml is merged with English under its code with its name recorded, and nothing else changed |
| StringTables.HindiReadsEnglish | strings/__init__.py:82-83 | after a successful language load, with no Hindi table before, there is still none, and `get_string("hi")` gives the English table |
| StringTables.TranslatedAll | strings/__init__.py:82-99 | a completed language loop implies every file has a name, the languages are loaded and the English name is kept |
| StringTables.Strings.constructor | strings/__init__.py:14-17 | the four tables start empty |
| StringTables.Strings.LoadCommands | strings/__init__.py:42-60 | command loading succeeds exactly when `en.yml` exists and every other command table has all English keys; then every file is stored under its code |
| StringTables.Strings.LoadHelpers | strings/__init__.py:62-66 | every helper `.yml` file is stored under its code and the other tables are untouched |
| StringTables.Strings.LoadLanguages | strings/__init__.py:68-99 | language loading succeeds exactly when `en.yml` exists and every other language file has a name after the merge; then all tables are loaded and the English name defaults to "English" |
| StringTables.Strings.LoadTranslations | strings/__init__.py:82-99 | the loop over the language listing succeeds exactly when every file has a name, and then leaves every file merged with English under its code |
| StringTables.Strings.Load | strings/__init__.py:42-103 | start-up succeeds exactly when the command and the language tables are complete; then the command and helper tables hold one table per file of their directories on top of what was there, the language tables hold English and every other file except `hi.yml` merged over English, each present under its name, and every command and string lookup, for any language, gives a table; when the command tables are incomplete the helper and language tables are left as they were |
| CommandFilter.NormalisePrefixes | strings/__init__.py:200-203 | `""` or `None` give the empty set, one other string gives the singleton, and a list gives the set of its elements |
| CommandFilter.EntriesFrom | strings/__init__.py:130-144 | a word is collected exactly when it is a word of the value of one of the keys, a missing key counting as `""` |
| CommandFilter.MissingKeyIsEmpty | strings/__init__.py:134 | a key missing from the table puts the empty word among the collected commands |
| CommandFilter.Entries | strings/__init__.py:130-144 | the words collected for the keys in order, a string value giving itself, a list its elements, a missing key `""` and any other value nothing; `EntriesFrom` characterises membership |
| CommandFilter.CollectCommands | strings/__init__.py:130-144 | the collecting loop returns exactly the localised and the English words of the keys, in order |
| CommandFilter.Candidates | strings/__init__.py:173-180 | the candidate list: English words with a prefix, and for another language then the localised words with a prefix and the localised words without one; characterised by `CandidatesBare`, `CandidatesPrefixed` and `EnglishOnly` |
| CommandFilter.CandidatesBare | strings/__init__.py:173-180 | a word is tried without a prefix exactly when the language is not English and the word is a localised one |
| CommandFilter.CandidatesPrefixed | strings/__init__.py:173-180 | a word is tried with a prefix exactly when it is an English word or, for another language, a localised word |
| CommandFilter.EnglishOnly | strings/__init__.py:175-176 | for English the candidates are exactly the English words with a prefix, in order |
| CommandFilter.CommandAt | strings/__init__.py:158-169 | the anchored regular expression: the text starts with the command, then `@username`, `username` or nothing, then whitespace or the end |
| CommandFilter.Boundary | strings/__init__.py:159 | `(?:\s|$)`: the position is the end of the text or holds a whitespace character |
| CommandFilter.CommandAlone | strings/__init__.py:158-162 | the command followed by whitespace or the end of the text matches |
| CommandFilter.CommandForUser | strings/__init__.py:158-162 | the command followed by `@username` and whitespace or the end matches |
| CommandFilter.NoMatchInsideWord | strings/__init__.py:158-162 | for a bot without a username, the command followed by a character that is neither whitespace nor `@` does not match |
| CommandFilter.CommandThenUser | strings/__init__.py:158-169 | since the `@` is optional, the command glued to the username and followed by whitespace or the end matches |
| CommandFilter.StartBotMatchesStart | strings/__init__.py:158-169 | for a bot named `bot`, the text `startbot` matches the command `start` |
| CommandFilter.FirstPrefix | strings/__init__.py:154-163 | none exactly when no prefix starts the text with the command after it; otherwise the first such prefix (in iteration order) followed by the command |
| CommandFilter.MatchSpec | strings/__init__.py:153-171 | a prefixed match is some prefix plus the command; without prefixes (or when prefixes are off) the match succeeds exactly when the text matches the command pattern, and gives the command |
| CommandFilter.MatchCommand | strings/__init__.py:153-171 | the loop over the prefixes returns the match the specification gives |
| CommandFilter.NoPrefixesMatchBare | strings/__init__.py:153-170 | with an empty prefix set a prefixed candidate matches exactly when the text itself matches the command pattern |
| CommandFilter.FirstOccurrence | strings/__init__.py:185-191 | a found position is within the text and the pattern occurs there |
| CommandFilter.FirstOccurrenceLeftmost | strings/__init__.py:185-191 | the found position is the leftmost occurrence, and none is found only when the pattern occurs nowhere |
| CommandFilter.UserLength | strings/__init__.py:186 | the greedy `(?:@?user)?` takes `@` and the username, or the username, or nothing, and never more than the text |
| CommandFilter.AfterCommand | strings/__init__.py:186 | what the substitution keeps after the command: a suffix of the text, shorter by at most the username, `@` and one whitespace character; `AfterSpace` gives its value after a bare command word |
| CommandFilter.RemoveCommand | strings/__init__.py:185-191 | `re.sub(..., count=1)` never lengthens the text; `RemoveCommandAtStart` gives its value when the text starts with the matched command, which `FilterStartsWithCommand` shows is always the case in the filter |
| CommandFilter.RemoveCommandAtStart | strings/__init__.py:185-191 | when the text starts with the matched command, the substitution removes it there and keeps what follows the optional username and space |
| CommandFilter.RemoveCommandWord | strings/__init__.py:185-191 | `cmd args` becomes `args` when `args` does not start with the username |
| CommandFilter.AfterSpace | strings/__init__.py:186 | after the command, one space is removed and the arguments are kept |
| CommandFilter.UnescapePlain | strings/__init__.py:193 | a token without backslashes is unchanged by the unescaping |
| CommandFilter.UnescapeEscape | strings/__init__.py:193 | unescaping undoes the escaping of quotes |
| CommandFilter.WordEnd | strings/__init__.py:194 | the run `[^\s"']+` at the start stops at the first whitespace or quote |
| CommandFilter.WordEndAt | strings/__init__.py:194 | the run ends exactly at the first special character |
| CommandFilter.QuotedToken | strings/__init__.py:192-195 | a quoted token contributes its unescaped inner text, then tokenising goes on after the closing quote |
| CommandFilter.BareToken | strings/__init__.py:192-195 | an unquoted word contributes the empty string |
| CommandFilter.QuotedRoundTrip | strings/__init__.py:192-195 | words written each in double quotes and separated by spaces tokenise back to the same words |
| CommandFilter.BareWordsAreEmpty | strings/__init__.py:192-195 | space-separated unquoted words all tokenise to empty strings |
| CommandFilter.EscapedQuoteEndsToken | strings/__init__.py:194 | in double quotes an escaped `\"` ends the token and the backslash is kept |
| CommandFilter.EscapedQuoteInSingleQuotes | strings/__init__.py:193-194 | in single quotes an escaped `\"` is unescaped |
| CommandFilter.Unescape | strings/__init__.py:193 | a backslash before a quote is dropped, so the result is never longer; `UnescapePlain` and `UnescapeEscape` give its meaning |
| CommandFilter.Tokens | strings/__init__.py:192-195 | the `finditer` scan: a quoted token gives its unescaped inner text and an unquoted word `""`; characterised by `QuotedToken`, `BareToken`, `QuotedRoundTrip` and `BareWordsAreEmpty` |
| CommandFilter.CommandOf | strings/__init__.py:192-195 | `[matched]` followed by the tokens of the text with the command removed; what the tokens are is stated by `FilterStartsWithCommand` and `RemoveCommandAtStart` |
| CommandFilter.FirstHitNone | strings/__init__.py:182-198 | no command results exactly when no candidate matches |
| CommandFilter.FirstHitIndex | strings/__init__.py:182-196 | the result comes from the first matching candidate, all earlier candidates failing |
| CommandFilter.FirstHitSkip | strings/__init__.py:182-184 | a candidate that does not match is passed over |
| CommandFilter.Hit | strings/__init__.py:183-184 | the match of one candidate, kept only when it is a non-empty string (`if matched_cmd`) |
| CommandFilter.FirstHit | strings/__init__.py:182-198 | the first candidate that hits gives the command; characterised by `FirstHitNone` and `FirstHitIndex` |
| CommandFilter.FilterSpec | strings/__init__.py:147-151 | a message without text or caption (or with empty ones) is rejected |
| CommandFilter.MessageText | strings/__init__.py:147 | `message.text or message.caption`: the text when it is non-empty, otherwise the caption |
| CommandFilter.FilterCommandWord | strings/__init__.py:183-192 | an accepted message's command list starts with a non-empty command |
| CommandFilter.PrefixThenCase | strings/__init__.py:156-163 | a text starting with the prefix and then, case-folded when asked, with the command starts with prefix plus command |
| CommandFilter.MatchStarts | strings/__init__.py:153-171 | every match returned by `match_command` begins the text |
| CommandFilter.FilterStartsWithCommand | strings/__init__.py:182-195 | an accepted message begins with `message.command[0]`, and the rest of `message.command` is the tokens of what follows the command, an optional username and one whitespace character |
| CommandFilter.Filter | strings/__init__.py:147-198 | the filter accepts exactly when it sets `message.command`, and the command is the one the specification gives |
| CommandFilter.Command | strings/__init__.py:111-198 | the whole filter: the candidates built from the language's and English tables, matched against the text or caption with the normalised prefixes |
| CommandFilter.MissingKeyMatchesBarePrefix | strings/__init__.py:134-163 | with a missing English command key, the message `/` is accepted as the command `/` |
| Markup.LineEnd | WinxMusic/utils/functions.py:107 | where `.` stops matching: the first newline or the end |
| Markup.ButtonsInLine | WinxMusic/utils/functions.py:107 | a button at the start of a text lies on the first line, ends with `]` and has a comma with a character on each side |
| Markup.IsButton | WinxMusic/utils/functions.py:107 | a whole match of `\[.+\,.+\]`: brackets at both ends, no newline, and a comma with at least one character on each side |
| Markup.ButtonAt | WinxMusic/utils/functions.py:107 | the match at the start is the longest button prefix, and none is found only when no prefix is a button |
| Markup.FindButtons | WinxMusic/utils/functions.py:107 | every match of `\[.+\,.+\]` is a button |
| Markup.ButtonFound | WinxMusic/utils/functions.py:107 | a text containing a button has at least one match |
| Markup.NoBracketNoButton | WinxMusic/utils/functions.py:107 | a text without `[` has no match |
| Markup.Unbracket | WinxMusic/utils/functions.py:109 | the result has no brackets and keeps every other character |
| Markup.UnbracketButton | WinxMusic/utils/functions.py:109 | only the brackets around `[title,url]` are removed |
| Markup.ParseButton | WinxMusic/utils/functions.py:109-111 | the title has no comma and the URL has no surrounding whitespace |
| Markup.ButtonRoundTrip | WinxMusic/utils/functions.py:107-111 | `[title,url]` is recognised and parses back to the title and the stripped URL |
| Markup.LookupNone | WinxMusic/utils/functions.py:115 | a label has no URL exactly when no button carries it |
| Markup.Put | WinxMusic/utils/functions.py:115 | `keyboard[title] = url` on an insertion-ordered dictionary; characterised by `PutSpec` |
| Markup.KeyboardOf | WinxMusic/utils/functions.py:108-115 | the keyboard built from the buttons in order, skipping those whose URL is not recognised; characterised by `KeyboardLookup` and `KeyboardDistinct` |
| Markup.PutSpec | WinxMusic/utils/functions.py:115 | `keyboard[title] = url` maps the title to the URL, leaves other labels alone, keeps labels distinct and keeps an existing label's position |
| Markup.KeyboardDistinct | WinxMusic/utils/functions.py:108-115 | the keyboard never holds a label twice |
| Markup.KeyboardLookup | WinxMusic/utils/functions.py:108-115 | the URL of each label is that of its last button with a valid URL: invalid ones are skipped and later duplicates overwrite |
| Markup.KeyboardStep | WinxMusic/utils/functions.py:108-115 | one more button adds its title and URL when the URL is valid and changes nothing otherwise |
| Markup.BuildKeyboard | WinxMusic/utils/functions.py:108-115 | the button loop builds exactly the specified keyboard |
| Markup.Unwrap | WinxMusic/utils/functions.py:95-99 | strip, then drop one leading and one trailing backtick; `UnwrapQuoted` |
| Markup.Protect | WinxMusic/utils/functions.py:101-102 | `~~` replaced by the placeholder when present; `ProtectIsReplace` |
| Markup.Restore | WinxMusic/utils/functions.py:104-105 | the placeholder turned back into `~~` when present; `ProtectIsReplace`, `ProtectPrefix` |
| Markup.Extract | WinxMusic/utils/functions.py:92-119 | body text and keyboard, or None when the protected text does not split into exactly two parts on `~`; characterised by `ExtractBodyIsPrefix` and `ExtractNeedsSeparator` |
| Markup.ExtractTextAndKeyboard | WinxMusic/utils/functions.py:92-119 | the step-by-step body computes the specified body text and keyboard, and none when the split fails |
| Markup.ProtectIsReplace | WinxMusic/utils/functions.py:101-105 | the `in` tests before the replacements change nothing |
| Markup.ProtectPrefix | WinxMusic/utils/functions.py:101-105 | when the protected text is `a~b`, restoring `a` gives the part of the original text before its first single `~` |
| Markup.ProtectedSplitPrefix | WinxMusic/utils/functions.py:101-105 | the restored body text followed by `~` begins the unwrapped text, so `~~` survives in it |
| Markup.ExtractBodyIsPrefix | WinxMusic/utils/functions.py:95-105 | the extracted body text is the unwrapped text up to its separating `~` |
| Markup.ExtractSingleSeparator | WinxMusic/utils/functions.py:101-107 | a text with a single `~` and nothing to unwrap splits there: the body is the restored part before it, and the keyboard is read from the rest |
| Markup.WrittenPlaceholderRestored | WinxMusic/utils/functions.py:104-105 | a `¤¤` written by the user in the body also comes back as `~~`: `a¤¤b~[x,y]` has the body `a~~b` |
| Markup.ExtractNeedsSeparator | WinxMusic/utils/functions.py:103-118 | a text without `~` gives no result |
| Markup.UnwrapQuoted | WinxMusic/utils/functions.py:95-99 | one pair of surrounding backticks is removed |
| Markup.InsertSeparatorInverse | WinxMusic/utils/functions.py:124-125 | on a text without `~`, removing every inserted `\n~\n` undoes the insertion |
| Markup.FirstAfterInsert | WinxMusic/utils/functions.py:125 | the insertion never makes a text without `~` start with `~` |
| Markup.InsertSeparatorAdds | WinxMusic/utils/functions.py:124-125 | a text containing `button=` gains a `~` |
| Markup.NoTildeNothingRemoved | WinxMusic/utils/functions.py:124-125 | a text without `~` contains no `\n~\n` to remove |
| Markup.CheckFormat | WinxMusic/utils/functions.py:122-133 | without buttons the text is kept; with `~` it is kept when it extracts and becomes `""` when it has buttons but does not extract; without `~` the result is the text with the separator inserted before every `button=`, and it gains a `~` when it has one |
| Markup.SeparatorBeforeFirstButton | WinxMusic/utils/functions.py:124-126 | buttons without a separator: the text before the first `button=` is kept and the separator goes right before it |
| Markup.TimeConverter | WinxMusic/utils/functions.py:285-300 | an empty string raises; the time is given exactly for digits followed by m, h or d in either case, and is now plus the number in minutes, hours or days (the `OverflowError` of very large numbers is not modelled); otherwise the error reply |
| Markup.UnitMinutes | WinxMusic/utils/functions.py:292-297 | the length of the unit in minutes: 1 for `m`, 60 for `h`, 1440 for `d`, which `timedelta(minutes=…)`, `hours=` and `days=` scale by |
| Markup.TimeRoundTrip | WinxMusic/utils/functions.py:285-300 | the digits of `n` followed by a unit give now plus `n` of that unit |
| Markup.FirstSpaceWord | WinxMusic/utils/functions.py:138 | no whitespace comes before the first whitespace position |
| Markup.FirstSpace | WinxMusic/utils/functions.py:138 | where `split(None, 1)` cuts the first word: the first whitespace position, or the length; `FirstSpaceWord` says no whitespace comes before it |
| Markup.SplitFirstWord | WinxMusic/utils/functions.py:138 | `split(None, 1)` into two parts gives a non-empty first word and a rest that starts with non-whitespace |
| Markup.NoteArgument | WinxMusic/utils/functions.py:138 | the argument after the command is non-empty and has no surrounding whitespace |
| Markup.SplitName | WinxMusic/utils/functions.py:139-142 | the name is a non-empty word without spaces; with more words the argument is the name, a space and the rest |
| Markup.ReplyData | WinxMusic/utils/functions.py:145-165 | the name is kept, and the data of a one-word note raises exactly when there is no replied message; a replied text that only repeats `/command name` gives "error" when the command is sent as text and no data when sent as a caption, and any other replied text is the data |
| Markup.GetDataAndName | WinxMusic/utils/functions.py:136-166 | the name is a non-empty word, and the data is None for a sticker or video-note reply |
| Markup.NoteRoundTrip | WinxMusic/utils/functions.py:137-144 | `cmd name data` gives back the name `name` with data `data` |
| Markup.NoteFromReply | WinxMusic/utils/functions.py:136-160 | a one-word note `cmd name` sent as a reply stores the replied-to text, and raises when there is no replied-to message |
| Markup.NoteFromParts | WinxMusic/utils/functions.py:137-144 | a note whose argument splits into a name and stripped data gives those |
| Markup.ArgumentAfterCommand | WinxMusic/utils/functions.py:138 | the argument of `cmd rest` is `rest` |
| Markup.SplitCommandWord | WinxMusic/utils/functions.py:138 | `cmd rest` splits into `cmd` and `rest` |
| Markup.NameThenData | WinxMusic/utils/functions.py:139 | `name data` splits at the space after `name` |
| PluginBot.NameStart | WinxMusic/core/bot.py:212 | the base name starts after the last `/` |
| PluginBot.Basename | WinxMusic/core/bot.py:212-218 | the base name has no `/`, ends the path, and is the whole path when it has no `/` |
| PluginBot.SplitExt | WinxMusic/core/bot.py:213 | stem and extension concatenate to the name; the extension is empty or a dot without further dots, and leading dots never start an extension |
| PluginBot.PyExtension | WinxMusic/core/bot.py:213-214 | a stem with a character other than a dot, followed by `.py`, splits into that stem and `.py` |
| PluginBot.DotPyHasNoExtension | WinxMusic/core/bot.py:213-214 | the file `.py` has no extension and is not loaded |
| PluginBot.Dotted | WinxMusic/core/bot.py:217 | every separator becomes `.` and every other character is kept |
| PluginBot.DropLast3 | WinxMusic/core/bot.py:218 | slicing off the last three characters |
| PluginBot.ModulePath | WinxMusic/core/bot.py:217-218 | the base directory's name, a dot and the dotted relative path without its last three characters; `ModulePathOf` and `ModulePathRoundTrip` |
| PluginBot.IsPlugin | WinxMusic/core/bot.py:212-215 | the base name's stem does not start with `__` and its extension is `.py`; `PluginEndsInPy`, `DunderNotPlugin`, `PyExtension` |
| PluginBot.PluginResult | WinxMusic/core/bot.py:211-238 | skipped for a file that is not a plugin, else failed or loaded with its module path as the module raises or not |
| PluginBot.PluginEndsInPy | WinxMusic/core/bot.py:212-215 | every loaded file's name ends in `.py` and is longer than it |
| PluginBot.DunderNotPlugin | WinxMusic/core/bot.py:214-215 | a stem starting with `__` is never loaded |
| PluginBot.DottedJoin | WinxMusic/core/bot.py:217 | a `/`-joined path becomes the `.`-joined path |
| PluginBot.DottedPath | WinxMusic/core/bot.py:217 | the dotted relative path of `d1/…/stem.py` is `d1.….stem.py` |
| PluginBot.ModulePathOf | WinxMusic/core/bot.py:217-218 | the module path is the base directory's name, the sub-directories and the stem, joined by dots |
| PluginBot.ModulePathRoundTrip | WinxMusic/core/bot.py:217-218 | splitting the module path on dots gives back the base name, the directories and the stem |
| PluginBot.Accepted | WinxMusic/core/bot.py:256-258 | one directory's files handed to `load_plugin`, in listing order; `AcceptedFiles` |
| PluginBot.Visited | WinxMusic/core/bot.py:255-258 | all files handed on by the walk, directory by directory; `VisitedFiles` |
| PluginBot.Visits | WinxMusic/core/bot.py:257 | the file filter of the walk: the name ends in `.py` and is not `utils.py`; `AcceptedFiles` |
| PluginBot.PathOf | WinxMusic/core/bot.py:258 | `os.path.join(root, file)` relative to the base directory: the file itself at the top, else the directory, a `/` and the file |
| PluginBot.AcceptedFiles | WinxMusic/core/bot.py:256-258 | a directory hands on exactly its `.py` files other than `utils.py`, with their paths |
| PluginBot.VisitedFiles | WinxMusic/core/bot.py:255-258 | the walk visits exactly the `.py` files other than `utils.py` of every directory |
| PluginBot.OutcomesAt | WinxMusic/core/bot.py:259 | one load result per visited path, in order |
| PluginBot.Loader | WinxMusic/core/bot.py:259 | `load_plugin(file_path, base_dir, utils)` as a function of the relative path: `PluginResult` for that base directory |
| PluginBot.Outcomes | WinxMusic/core/bot.py:259 | the result of each path in order; `OutcomesAt` gives the one at each position |
| PluginBot.UntilFailure | WinxMusic/core/bot.py:229-260 | a run of the generator: the results it yields before the process exits, followed by one `Failed` entry that stands for the `exit()` of the failing load, which is not yielded; `UntilFailurePrefix`, `UntilFailureStops` |
| PluginBot.UntilFailurePrefix | WinxMusic/core/bot.py:229-260 | a run is a prefix of the results with no failure before its last entry, and stops early only at a failure, whose entry stands for the exit |
| PluginBot.UntilFailureStops | WinxMusic/core/bot.py:236 | the run ends at the first failure: after the exit nothing is loaded or yielded |
| PluginBot.UntilFailureAppend | WinxMusic/core/bot.py:255-260 | results without a failure are all yielded, and the run goes on with the rest |
| PluginBot.LoadedCountBound | WinxMusic/core/bot.py:231 | the number of successful loads is at most the number of results, and equal exactly when all of them loaded |
| PluginBot.LoadedCount | WinxMusic/core/bot.py:231 | the number of results that loaded, which is what `loaded_plug_counts += 1` counts; `LoadedCountBound` and `LoadedCountConcat` |
| PluginBot.LoadedCountConcat | WinxMusic/core/bot.py:231 | the successful loads of two runs add up |
| PluginBot.FailureEndsWalk | WinxMusic/core/bot.py:236-260 | a failure in one directory ends the whole walk there |
| PluginBot.Bot.constructor | WinxMusic/core/bot.py:41 | the counter starts at 0 |
| PluginBot.Bot.LoadPlugin | WinxMusic/core/bot.py:211-238 | skipped, loaded or failed as the name filter and the module decide, and the counter grows by one exactly on a successful load |
| PluginBot.Bot.LoadFiles | WinxMusic/core/bot.py:256-260 | one directory's files are loaded in order up to the first failure, and the counter grows by the number of successful loads |
| PluginBot.Bot.LoadPluginsFrom | WinxMusic/core/bot.py:240-260 | the walk yields the load results of all visited files until a load fails; the final `Failed` entry, if any, stands for the `exit()` and is not yielded; the counter grows by exactly the number of successful loads |
| PluginBot.NormaliseLogGroup | WinxMusic/core/bot.py:189-194 | a numeric id is kept, a username starting with `@` is kept, and any other username gets `@` in front |
| PluginBot.NormaliseIdempotent | WinxMusic/core/bot.py:189-194 | normalising twice is normalising once |
| PluginBot.Classify | WinxMusic/core/bot.py:46-87 | a flood wait sleeps its value, `StopPropagation` is raised again, other `Exception`s are reported with their type name, and exceptions outside `Exception` pass through |
| PluginBot.IgnoredErrors | WinxMusic/core/bot.py:54-60 | exactly the four Telegram errors are ignored |

## Left out

- Telegram and network calls are left out: the maintenance reply, `send_message`, `set_bot_commands` and the start-up and shutdown of the client. They are foreign I/O.
- The maintenance gate (strings/__init__.py:112-123) is left out. It depends on the database-backed `get_lang` and `is_maintenance`. The language code is a parameter.
- Reading files is left out: `os.listdir`, `os.walk`, `os.path.exists` and YAML parsing. Directory listings and parsed tables are given values, and a YAML value is a string, a list of strings or anything else.
- The error messages printed before `sys.exit` are left out. Only the exit itself is modelled (`Outcome.Exit`).
- Module execution through `importlib` is left out. Whether a plugin's module raises is a given set of paths. The attributes set on the module (`logger`, `app`, `Config`, `utils`) are not modelled.
- The separate load of `utils.py` (WinxMusic/core/bot.py:245-253) is left out. It only produces the value handed to each plugin.
- `os.path.abspath` and `os.path.relpath` are left out. Paths are given relative to the base directory, with `/` as the separator.
- The message text of the wrapper's error report, and sending it to the owner, are left out. The report is modelled as the exception's type name.
- `get_urls_from_text` is the parameter `isUrl`; its regular expression is left out.
- `ikb(keyboard, row_width)` is left out. The keyboard is the label→URL dictionary in insertion order. Its layout in rows and any exception from building it are not modelled.
- `.markdown` rendering of message text is treated as the identity.
- `datetime.now()` and `timedelta` are left out. Times are integer minutes from a given `now`.
- `run_shell_command` is left out: it is subprocess I/O.
- CommandFilter.Command: the prefixes, command words and username are taken to contain no regular-expression metacharacters. The source interpolates them unescaped.
- CommandFilter.Command: the iteration order of Python's prefix set is a given enumeration `order` of the set. Python does not fix this order.
- CommandFilter.MatchSpec: case-insensitive matching folds ASCII letters only. Python's `re.IGNORECASE` also folds other Unicode letters.
- Text.IsDigit: only the ASCII digits `0` to `9`; Python's `isdigit()` also accepts other Unicode decimal digits and digit characters such as `²`.
- Text.AllDigits: built on `Text.IsDigit`, so it has the same ASCII restriction (`Text.DigitsValue` reads only ASCII digits too).
- Markup.TimeConverter: the unit's `lower()` is ASCII folding.
- Markup.TimeConverter: the model gives a time for every digit string. In Python `timedelta` raises `OverflowError` beyond 999999999 days, and adding the delta to `datetime.now()` raises `OverflowError` past the year 9999 (for example `3000000d`).
- Markup.TimeConverter: a string such as `²m` passes `isdigit()` and then makes `int()` raise `ValueError`, where the model gives the error reply. `isdigit` and `int` are modelled for the ASCII digits only: other Unicode decimal digits, which Python reads as numbers, also give the error reply in the model.
- Text.IsSpace: the whitespace set is the ASCII and Unicode whitespace of `str.isspace`, and is also used for the regular-expression `\s`.
