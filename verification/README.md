# pumpkin-py core in Dafny

A model of three self-contained parts of the pumpkin-py Discord bot, with proofs of what each part promises.

1. **Text utilities** (`pie/utils/text.py`):
   - `split` cuts a string into fixed-size chunks.
   - `split_lines` packs whole lines into pages.
   - `parse_bool` parses a boolean keyword.
   - `sanitise` escapes `@` and truncates. Only its `escape=False` path is modelled.
   - `create_table` computes column widths, then pads, colours and pages the rows.
2. **Repository metadata** (`pie/repository/__init__.py`):
   - the recognisers for the `__name__ = '…'` and `__all__ = (…)` lines;
   - the `repo.conf` checks of `Repository.set_facts`;
   - the legacy `__init__.py` scan of `set_facts_legacy`;
   - the directory scan of `RepositoryManager.refresh`;
   - `get_repository`.

   The filesystem is abstract: a set of directories, the lines of each file, and the section/key/value map `configparser` would give for each INI file. The directory listing is an input sequence.
3. **Keyed record stores** (the `database.py` files and `pie/database/config.py`):
   - spam channels;
   - module storage;
   - access control;
   - language preferences;
   - the `base` module's per-channel settings;
   - the global configuration;
   - the admin module switches.

   A table is the sequence of its rows in insertion order, and a key is a projection of a row. "At most one row per key" is the invariant `Tables.Unique`. It is not built into the representation, so each transition is shown to preserve it.

   Each static method is a pure function from the table, and its arguments, to its result and the new table:
   - `.one_or_none()` on a key held by more than one row is `Err(MultipleResultsFound)`.
   - A commit that breaks a unique constraint is `Err(IntegrityError)`, and the table is unchanged.
   - `channel_id == None` compiles to `IS NULL`, so `None` is a key like any other.

Modules, one per file:
- `Results`: `Option`, `Result` and `DbError`.
- `Strings`: Python's `isspace`, `strip`, `split`, `join`, `startswith` and ASCII `lower`.
- `Ordering`: Python's string order and `sorted`.
- `Text`.
- `TableFormat`.
- `RepoMetadata`.
- `RepoManager`.
- `Tables`: the query shapes the stores use.
- The stores: `SpamChannels`, `Storage`, `Acl`, `I18n`, `BaseBase`, `BotConfig` and `BaseAdmin`.

Two quirks of the code are modelled as written:
- `RE_NAME` needs at least two characters.
- The opening and closing quotes of a `__name__` line need not match.

Two checks of `set_facts_legacy` can never fire:
- The "missing a list of modules" check, because `module_names` starts as `[]`. This is `RepoMetadata.LegacyModuleListCheckIsDead`.
- The "invalid module" link check, on a filesystem where every file's parent directories exist, because `_regex_get_modules` has already required `<name>/__init__.py`. This is `RepoMetadata.LegacyLinkCheckIsDead`.

## Model

| member | source | states |
|---|---|---|
| Strings.Strip | pie/repository/__init__.py:211 | `str.strip(chars)`: the result neither starts nor ends with a stripped character |
| Strings.StripSplit | pie/repository/__init__.py:211 | the stripped string is the input with its whole leading run of stripped characters and a trailing run of them cut off |
| Strings.StripEmpty | pie/repository/__init__.py:211-212 | stripping gives `""` exactly when every character of the input is a stripped one |
| Strings.StripWrapped | pie/repository/__init__.py:211 | stripping removes exactly the padding of stripped characters around a name, and nothing else |
| Strings.TrimRight | pie/utils/text.py:143 | `rstrip()`: the result is a prefix of the input, the removed suffix is all whitespace, and the result does not end in whitespace |
| Strings.SplitOn | pie/repository/__init__.py:211 | `split(",")`: no piece contains the separator, and joining the pieces with it gives the input back |
| Strings.SplitOnJoin | pie/repository/__init__.py:211 | splitting a separator-joined list of separator-free parts gives the parts back |
| Strings.Words | pie/repository/__init__.py:143 | `split()`: every word is non-empty and free of whitespace |
| Strings.WordsKeepText | pie/repository/__init__.py:143 | the words, concatenated, are exactly the non-whitespace characters of the input |
| Strings.WordsOfJoin | pie/repository/__init__.py:143 | splitting space-joined words gives the words back |
| Strings.Lower | pie/utils/text.py:74 | no upper-case ASCII letter is left; each one becomes its lower-case letter and every other character is kept; the length is kept |
| Strings.LowerIdempotent | pie/utils/text.py:74 | lower-casing twice is lower-casing once |
| Strings.StartsWithIsPrefix | pie/repository/__init__.py:164-166 | `startswith` holds exactly when the prefix is the front of the string |
| Ordering.LexLeTotal | pie/repository/__init__.py:49 | any two strings compare |
| Ordering.LexLeTrans | pie/repository/__init__.py:49 | string order is transitive |
| Ordering.LexLeAntisym | pie/repository/__init__.py:49 | two strings each `<=` the other are equal |
| Ordering.SortSpec | pie/repository/__init__.py:49-51 | `sorted` returns an ordered permutation of its input |
| Ordering.SortedUnique | pie/repository/__init__.py:49-51 | any two ordered permutations of the same strings are equal, so the sorting algorithm does not matter |
| Ordering.SortMembers | pie/repository/__init__.py:49-51 | sorting keeps exactly the elements of the input |
| Ordering.CountSort | pie/repository/__init__.py:49-51 | sorting keeps how many elements satisfy any predicate |
| Text.Split | pie/utils/text.py:28-36 | every chunk is non-empty and at most `limit` long; every chunk but the last is exactly `limit` long; there are no chunks exactly when the input is empty |
| Text.SplitRoundTrip | pie/utils/text.py:36 | concatenating the chunks gives the input back |
| Text.SplitCount | pie/utils/text.py:36 | the number of chunks is the length divided by `limit`, rounded up, which is how many offsets `range(0, len, limit)` produces |
| Text.SplitChunkAt | pie/utils/text.py:36 | chunk `i` is the slice `s[i*limit : i*limit+limit]` |
| Text.PackLines | pie/utils/text.py:50-58 | the paging loop always ends with at least one page |
| Text.PackLinesKeepsLines | pie/utils/text.py:53-57 | the pages' lines, read in order, are exactly the input lines |
| Text.SplitLines | pie/utils/text.py:39-59 | at least one page is returned; no lines give `[""]` |
| Text.PackLinesFlushedPagesAreFull | pie/utils/text.py:54-56 | every page but the last had reached `limit` characters before it was closed |
| Text.PackLinesGreedy | pie/utils/text.py:54-57 | a page is never closed while its text is below `limit` |
| Text.PackLinesNonEmpty | pie/utils/text.py:53-57 | with a positive limit and at least one line, no page is empty of lines |
| Text.StripPage | pie/utils/text.py:55 | stripping newlines from a page of plain lines leaves those lines joined by newlines |
| Text.SplitLinesKeepsLines | pie/utils/text.py:46-58 | when no line is empty or holds a newline, the pages joined by newlines equal the lines joined by newlines, so no line is cut |
| Text.PagesJoinGroups | pie/utils/text.py:53-58 | each page is its own lines joined by newlines |
| Text.SplitLinesNonPositiveLimit | pie/utils/text.py:54-56 | with `limit <= 0`, an empty first page is flushed before the first line |
| Text.ParseBool | pie/utils/text.py:62-78 | `True` exactly for `1`/`true`/`yes`, `False` exactly for `0`/`false`/`no` (any case), `None` otherwise |
| Text.ParseBoolIgnoresCase | pie/utils/text.py:74-77 | texts equal up to case parse alike |
| Text.ParseBoolOfPrinted | pie/utils/text.py:74-77 | the strings `True` and `False` parse back to the boolean |
| Text.TagEscape | pie/utils/text.py:23 | every `@` of the result is followed by a zero-width space |
| Text.TagEscapeRoundTrip | pie/utils/text.py:23 | removing the inserted zero-width spaces gives the input back |
| Text.SliceLengthNegative | pie/utils/text.py:25 | a negative `limit` within the length cuts as the limit `n + limit` does: all but the last `-limit` characters are kept |
| Text.Sanitise | pie/utils/text.py:6-25 | the result is a prefix of the (escaped) text of the length `s[:limit]` gives, at most `limit` long; every `@` before the last character is followed by a zero-width space |
| TableFormat.Matrix | pie/utils/text.py:101-116 | one line per item plus the heading, each with one cell per column |
| TableFormat.WidestCell | pie/utils/text.py:106-114 | the width is at least the label's length and every cell's length, and equals one of them |
| TableFormat.ColumnWidths | pie/utils/text.py:106-114 | each column width is the maximum of its label length and all its cell lengths |
| TableFormat.MatrixFitsWidths | pie/utils/text.py:104-116 | every cell fits its column width |
| TableFormat.LJust | pie/utils/text.py:140 | `ljust`: the text, then spaces up to the width |
| TableFormat.RowBodyLength | pie/utils/text.py:139-140 | a padded row is as long as all column widths plus two per column |
| TableFormat.RowBodyAligned | pie/utils/text.py:139-140 | cell `c` starts at its column's offset and is followed by spaces up to the next column |
| TableFormat.RenderedLines | pie/utils/text.py:129-147 | one rendered line per matrix line, each ending in a newline |
| TableFormat.PlainLineLayout | pie/utils/text.py:130-147 | without colours a line is its padded cells, right-stripped, then a newline |
| TableFormat.PackRows | pie/utils/text.py:128-156 | the paging loop always ends with at least one page |
| TableFormat.PackRowsKeepsLines | pie/utils/text.py:149-156 | the pages' lines, read in order, are exactly the rendered lines |
| TableFormat.CreateTable | pie/utils/text.py:81-158 | at least one page, and every page starts with `"ansi\n"` when `rich`, otherwise with `""` |
| TableFormat.CreateTableKeepsLines | pie/utils/text.py:118-158 | the pages with their prefixes removed, concatenated, are all rendered lines in order |
| TableFormat.PackRowsFlushRule | pie/utils/text.py:150-152 | a page is flushed only when the next line would push it past `limit` |
| TableFormat.PackRowsFit | pie/utils/text.py:150-153 | on every page each line after the first was added only while the page stayed within `limit` |
| TableFormat.CreateTableFirstPageFits | pie/utils/text.py:150-153 | the first page, with its prefix, fits within `limit` unless it holds no line (a first line that is already too long flushes the bare prefix) |
| RepoMetadata.AfterEqualsSound | pie/repository/__init__.py:191 | what remains after `prefix \s* = \s*` is found only when the line has that shape |
| RepoMetadata.AfterEqualsComplete | pie/repository/__init__.py:191 | every `prefix \s* = \s* rest` line yields `rest` |
| RepoMetadata.QuotedName | pie/repository/__init__.py:14-15 | what is found between two quotes matches `RE_NAME` |
| RepoMetadata.QuotedNameSound | pie/repository/__init__.py:14-15 | a name is found only in `q1 NAME q2` with `q1` and `q2` each a `RE_QUOTE` |
| RepoMetadata.QuotedNameComplete | pie/repository/__init__.py:14-15 | every `q1 NAME q2` yields `NAME`, with the quotes chosen independently |
| RepoMetadata.ParseNameLine | pie/repository/__init__.py:190-193 | an accepted name matches `RE_NAME` |
| RepoMetadata.ParseNameLineSound | pie/repository/__init__.py:190-198 | every accepted line is in the `__name__` grammar with the name returned |
| RepoMetadata.ParseNameLineComplete | pie/repository/__init__.py:190-198 | every line of the `__name__` grammar is accepted with its name |
| RepoMetadata.Parenthesised | pie/repository/__init__.py:203 | a body is found only between parentheses, and it is non-empty and made of `RE_NAMES` characters |
| RepoMetadata.ParseModulesLine | pie/repository/__init__.py:203-204 | an accepted body is non-empty and made of `RE_NAMES` characters |
| RepoMetadata.ParseModulesLineSound | pie/repository/__init__.py:203-210 | every accepted line is in the `__all__` grammar with the body returned |
| RepoMetadata.ParseModulesLineComplete | pie/repository/__init__.py:203-210 | every line of the `__all__` grammar is accepted with its body |
| RepoMetadata.GetName | pie/repository/__init__.py:188-199 | a returned name matches `RE_NAME`; every failure is the invalid-name error |
| RepoMetadata.ModuleNames | pie/repository/__init__.py:210-212 | every listed name is non-empty with no space or quote at either end |
| RepoMetadata.Cleaned | pie/repository/__init__.py:211-212 | stripping and dropping empty pieces keeps at most the pieces it is given, all of them unpadded |
| RepoMetadata.CleanedAppend | pie/repository/__init__.py:211-212 | each piece is cleaned on its own: cleaning two lists of pieces one after the other is cleaning each |
| RepoMetadata.CleanedOne | pie/repository/__init__.py:211-212 | a piece of spaces and quotes only is dropped; any other piece gives exactly its stripped text |
| RepoMetadata.ModuleNamesOfPieces | pie/repository/__init__.py:210-212 | pieces without commas, joined by commas, read back as the cleaned pieces |
| RepoMetadata.ModuleNamesTrailingComma | pie/repository/__init__.py:210-212 | a padded list followed by a comma and padding only (the one-element tuple `("mod",)`) reads back as exactly the names |
| RepoMetadata.ModuleNamesRoundTrip | pie/repository/__init__.py:210-212 | names wrapped in any space/quote padding and joined by commas come back out in order |
| RepoMetadata.ModuleErrorOrder | pie/repository/__init__.py:213-226 | the checks run in order: an invalid name exactly when the name pattern fails; otherwise a missing init file exactly when `name/__init__.py` is absent; otherwise a missing module file, and then `name/module.py` is absent |
| RepoMetadata.FirstModuleError | pie/repository/__init__.py:213-226 | there is no error exactly when every name passes the three checks |
| RepoMetadata.FirstModuleErrorIsFirst | pie/repository/__init__.py:213-226 | the error reported is the error of the first failing name |
| RepoMetadata.GetModules | pie/repository/__init__.py:201-227 | a returned list passes every check; an error is one a line can raise |
| RepoMetadata.GetModulesAllOrNothing | pie/repository/__init__.py:204-227 | a matching line yields its whole list exactly when every name passes; otherwise the first failing name's error |
| RepoMetadata.GetModulesRejectsLine | pie/repository/__init__.py:204-209 | a line that does not match is the invalid-specification error |
| RepoMetadata.ConfModules | pie/repository/__init__.py:143 | the module names are the whitespace-separated words of `modules`, none empty or holding whitespace |
| RepoMetadata.SetFactsConf | pie/repository/__init__.py:131-143 | a missing or empty `name` is an error, then a missing or empty `modules` is an error, otherwise the name and the word list |
| RepoMetadata.SetFacts | pie/repository/__init__.py:124-143 | `repo.conf` decides when it is a file, otherwise the legacy path; a found name is non-empty; no facts only when `__init__.py` is missing |
| RepoMetadata.SetFactsConfRoundTrip | pie/repository/__init__.py:134-143 | a `repo.conf` listing space-joined names yields exactly that name and those names |
| RepoMetadata.ConfFound | pie/repository/__init__.py:134-143 | with a non-empty `name` and `modules`, `repo.conf` yields that name and the words of `modules` |
| RepoMetadata.ReadLine | pie/repository/__init__.py:159-167 | one line is ignored, sets the name, sets the list, or raises one of the line errors |
| RepoMetadata.Scan | pie/repository/__init__.py:155-167 | a list, once set, stays set through the loop |
| RepoMetadata.ScanStopsAtFirstError | pie/repository/__init__.py:158-167 | the loop succeeds exactly when every line reads cleanly, and otherwise raises the first line's error |
| RepoMetadata.ScanErrorIsLineError | pie/repository/__init__.py:158-167 | a failed loop reports an error some line can raise |
| RepoMetadata.ScanValid | pie/repository/__init__.py:158-167 | names and lists set by the loop are valid ones |
| RepoMetadata.ScanLastNameWins | pie/repository/__init__.py:164-165 | the last `__name__` line decides the name |
| RepoMetadata.ScanKeepsName | pie/repository/__init__.py:155-165 | without a `__name__` line the name stays unset |
| RepoMetadata.ScanLastModulesWin | pie/repository/__init__.py:166-167 | the last `__all__` line decides the list |
| RepoMetadata.ScanKeepsModules | pie/repository/__init__.py:156-167 | without an `__all__` line the list stays `[]` |
| RepoMetadata.ScanWithoutModuleList | pie/repository/__init__.py:156-167 | a clean loop that sets a name but no list gives facts with an empty module list |
| RepoMetadata.ScanIgnoresLinesWithoutEquals | pie/repository/__init__.py:160-162 | lines without `=` have no effect |
| RepoMetadata.FirstMissingDir | pie/repository/__init__.py:178-183 | none exactly when every listed module is a directory; otherwise a listed module that is not one |
| RepoMetadata.LegacyFacts | pie/repository/__init__.py:169-186 | facts are found only from a successful loop, with its name and list |
| RepoMetadata.ScanMissingName | pie/repository/__init__.py:169-172 | the missing-name error follows exactly when every line reads cleanly and none sets the name |
| RepoMetadata.ScanModulesNeverMissing | pie/repository/__init__.py:173-177 | a loop that starts with `[]` and only replaces it never leads to the missing-list error |
| RepoMetadata.SetFactsLegacy | pie/repository/__init__.py:145-186 | no facts exactly when `__init__.py` is missing; found facts have a valid name and modules that pass every check |
| RepoMetadata.SetFactsLegacyIsScan | pie/repository/__init__.py:155-186 | with `__init__.py` present, the facts are the loop's result |
| RepoMetadata.LegacyMissingName | pie/repository/__init__.py:169-172 | the missing-name error is raised exactly when every line reads cleanly and none is a `__name__` line |
| RepoMetadata.LegacyWithoutModuleList | pie/repository/__init__.py:156-186 | a file that names the repository but has no `__all__` line yields an empty module list, not an error |
| RepoMetadata.LegacyModuleListCheckIsDead | pie/repository/__init__.py:173-177 | the "missing a list of modules" error is never raised |
| RepoMetadata.LegacyLinkCheckIsDead | pie/repository/__init__.py:178-183 | on a consistent filesystem the invalid-module-link error is never raised |
| RepoManager.Candidates | pie/repository/__init__.py:49-51 | exactly the listing's entries that are directories other than `__pycache__` |
| RepoManager.Visit | pie/repository/__init__.py:53-68 | the loop yields at most one repository or log entry per directory |
| RepoManager.Refresh | pie/repository/__init__.py:44-70 | the log only grows: the old log is a prefix of the new one |
| RepoManager.Start | pie/repository/__init__.py:37-39 | every log line of a new manager names a directory carrying `__init__.py` |
| RepoManager.FlushLog | pie/repository/__init__.py:41-42 | the log is emptied and the repositories are kept |
| RepoManager.VisitSound | pie/repository/__init__.py:53-68 | every repository and log entry comes from a visited directory carrying `__init__.py`, with its metadata |
| RepoManager.VisitComplete | pie/repository/__init__.py:53-68 | every visited directory carrying `__init__.py` yields its repository or its log entry |
| RepoManager.VisitCounts | pie/repository/__init__.py:53-68 | one repository per directory that loads, and one log entry per directory that is rejected |
| RepoManager.VisitSorted | pie/repository/__init__.py:53-68 | visiting sorted directories yields repositories sorted by directory name |
| RepoManager.RefreshSound | pie/repository/__init__.py:44-70 | only listed directories that are not `__pycache__` and carry `__init__.py` give repositories or new log entries |
| RepoManager.RefreshComplete | pie/repository/__init__.py:44-70 | every such directory gives its repository or exactly its log entry; a metadata error does not stop the scan |
| RepoManager.RefreshCounts | pie/repository/__init__.py:44-70 | one repository per loading directory and one new log entry per rejected directory |
| RepoManager.RefreshSorted | pie/repository/__init__.py:49-68 | the repository list is in sorted directory order |
| RepoManager.RefreshForgetsRepositories | pie/repository/__init__.py:46-70 | the repository list is replaced, not extended |
| RepoManager.Find | pie/repository/__init__.py:74-77 | a returned repository has the name; none exactly when no repository has it |
| RepoManager.GetRepository | pie/repository/__init__.py:72-77 | a returned repository has the name; `None` exactly when no repository has it |
| RepoManager.FindIsFirst | pie/repository/__init__.py:74-76 | the returned repository is the first with the name |
| RepoManager.GetRepositoryIsFirst | pie/repository/__init__.py:72-77 | the returned repository is the first with the name |
| Tables.Where | pie/acl/database.py:49-51 | `filter_by(...).all()`: exactly the rows with the value |
| Tables.Get | pie/acl/database.py:39-46 | `one_or_none()`: `None` exactly when no row has the key; the found row has it; `MultipleResultsFound` exactly when two or more do |
| Tables.Remove | pie/acl/database.py:53-60 | `delete()` returns the number of rows with the key; afterwards none is left; other keys and uniqueness are kept |
| Tables.InsertIfAbsent | pie/acl/database.py:29-37 | nothing changes when the key is present; otherwise the row is added and found; uniqueness and other keys are kept |
| Tables.Replace | modules/base/base/database.py:19-27 | afterwards the key holds exactly the new row; uniqueness and other keys are kept |
| Tables.Upsert | modules/base/base/database.py:201-212 | afterwards the key holds exactly the new row, updated in place or added; uniqueness and other keys are kept |
| Tables.Merge | pie/storage/database.py:44 | on a unique table, the key holds exactly the row; other rows are kept |
| Tables.DeleteInsert | pie/i18n/database.py:49-56 | afterwards the key holds exactly the new row; other keys are kept |
| Tables.UpsertTwice | modules/base/base/database.py:201-212 | repeating an upsert with the same row changes nothing |
| Tables.ReplaceTwice | modules/base/base/database.py:19-27 | repeating a replace with the same row changes nothing |
| SpamChannels.GetChannel | pie/spamchannel/database.py:31-38 | under the unique constraints there is never a multiple-results error; `None` exactly when the channel is not registered |
| SpamChannels.AllChannels | pie/spamchannel/database.py:40-43 | exactly the guild's channels |
| SpamChannels.Add | pie/spamchannel/database.py:19-29 | the commit succeeds exactly when both unique constraints still hold; the new row is not primary and `get` finds it; a registered (guild, channel) is rejected; a committed add keeps every existing row and adds only the new one |
| SpamChannels.AddKeepsOnePrimary | pie/spamchannel/database.py:24-29 | adding keeps at most one primary per guild |
| SpamChannels.SetPrimary | pie/spamchannel/database.py:45-62 | a committed change keeps both unique constraints; on a table with one primary per guild, the only failure is an integrity error |
| SpamChannels.SetPrimaryCommits | pie/spamchannel/database.py:19-62 | on a table that keeps its constraints and one primary per guild, `set_primary` commits exactly when neither step breaks the (channel, primary) constraint: demoting the old primary does not meet a non-primary row of its channel in another guild, and promoting a registered channel does not meet that channel as another guild's primary |
| SpamChannels.DemoteSpec | pie/spamchannel/database.py:54-55 | after the old primary is demoted, the guild has no primary and other guilds are unchanged |
| SpamChannels.PromoteSpec | pie/spamchannel/database.py:57-59 | the found channel becomes the guild's only primary, and other guilds are unchanged |
| SpamChannels.SetPrimaryAlreadyPrimary | pie/spamchannel/database.py:52-53 | on the channel that is already primary, it is returned and nothing changes |
| SpamChannels.SetPrimaryRegistered | pie/spamchannel/database.py:54-61 | on a registered channel, it is returned as the guild's only primary |
| SpamChannels.SetPrimaryUnregistered | pie/spamchannel/database.py:54-62 | on an unregistered channel, `None` is returned and the guild is left with no primary |
| SpamChannels.SetPrimaryFrame | pie/spamchannel/database.py:46-62 | at most one primary per guild is kept; other guilds' channels are unchanged; every row other than the guild's old primary and the channel itself is kept; no channel is added or dropped (every (guild, channel) key keeps its number of rows) |
| SpamChannels.Remove | pie/spamchannel/database.py:64-72 | the number deleted is 0 or 1 under the constraint and positive exactly when registered; afterwards `get` is `None`; one primary per guild is kept; the rows left are exactly the rows of other channels |
| SpamChannels.WithoutKeepsOnePrimary | pie/spamchannel/database.py:64-72 | deleting rows never gives a guild a second primary |
| Storage.TypeName | pie/storage/database.py:43 | the tag names the value's type: `str`, `int` or `bool` |
| Storage.GetData | pie/storage/database.py:49-58 | under the primary key, no error; `None` exactly when the key is absent |
| Storage.Set | pie/storage/database.py:20-47 | an existing key with overwriting off gives `None` and no change; otherwise `get` returns the value with its type tag; the primary key and the tags stay valid; other keys are unchanged |
| Storage.SetTwice | pie/storage/database.py:39-47 | setting the same value twice changes nothing the second time |
| Storage.RemoveData | pie/storage/database.py:60-70 | true exactly when one row was deleted; afterwards `get` is `None`; other keys are unchanged |
| Storage.DumpData | pie/storage/database.py:78-85 | the dump is module, guild, key and value; with a valid tag the row is recovered from it |
| Acl.Rank | pie/acl/database.py:12-18 | each level's integer value is between 0 and 5 |
| Acl.FromRank | pie/acl/database.py:12-18 | a level exists exactly for the values 0 to 5, and it has that value |
| Acl.LevelOrder | pie/acl/database.py:12-18 | each level is recovered from its value, and the levels are totally ordered by value |
| Acl.GetDefault | pie/acl/database.py:39-46 | the found default has the guild and command; `None` exactly when there is none; an error exactly when more than one row matches, so never on a table with unique keys |
| Acl.AddDefault | pie/acl/database.py:29-37 | `None` and no change when the command has a default; otherwise the new entry is added and found; keys stay unique; other entries are unchanged |
| Acl.AllDefaults | pie/acl/database.py:48-51 | exactly the guild's defaults |
| Acl.RemoveDefault | pie/acl/database.py:53-60 | true exactly when an entry was deleted; afterwards `get` is `None`; other entries are unchanged |
| Acl.GetOverwrite | pie/acl/database.py:99-106 | the found overwrite has the key; `None` exactly when there is none; an error exactly when more than one row matches, so never on a table with unique keys |
| Acl.AddOverwrite | pie/acl/database.py:86-97 | insert only if (guild, target, command) is absent; otherwise `None` and no change; other entries are unchanged |
| Acl.AllOverwrites | pie/acl/database.py:108-111 | exactly the guild's overwrites |
| Acl.RemoveOverwrite | pie/acl/database.py:113-120 | true exactly when an entry was deleted; afterwards `get` is `None`; other entries are unchanged |
| Acl.DumpOverwrite | pie/acl/database.py:129-134 | the dump is guild, target and allow, and with the command it gives back the row |
| Acl.DumpOmitsCommand | pie/acl/database.py:129-134 | the dump does not depend on the command |
| Acl.GetMapping | pie/acl/database.py:274-281 | the found mapping has the key; `None` exactly when there is none; an error exactly when more than one row matches, so never on a table with unique keys |
| Acl.AddMapping | pie/acl/database.py:265-272 | insert only if (guild, role) is absent; otherwise `None` and no change; other entries are unchanged |
| Acl.AllMappings | pie/acl/database.py:283-286 | exactly the guild's mappings |
| Acl.RemoveMapping | pie/acl/database.py:288-295 | true exactly when an entry was deleted; afterwards `get` is `None`; other entries are unchanged |
| I18n.SameGuild | pie/i18n/database.py:30-31 | two guild preferences are equal exactly when they differ at most in language |
| I18n.GetGuild | pie/i18n/database.py:58-66 | under the unique guild column, no error; `None` exactly when the guild has no preference |
| I18n.AddGuild | pie/i18n/database.py:39-56 | afterwards exactly one preference exists for the guild, holding the new language; other guilds are unchanged |
| I18n.AddGuildTwice | pie/i18n/database.py:49-56 | setting the same guild language twice changes nothing the second time |
| I18n.RemoveGuild | pie/i18n/database.py:68-77 | the number deleted is 0 or 1 under the constraint; afterwards `get` is `None`; other guilds are unchanged |
| I18n.SameMember | pie/i18n/database.py:102-107 | two member preferences are equal exactly when they differ at most in language |
| I18n.GetMember | pie/i18n/database.py:139-152 | `None` exactly when the member has no preference |
| I18n.AddMember | pie/i18n/database.py:116-137 | afterwards the member's only preference holds the new language; at most one row per member is kept; other members are unchanged |
| I18n.AddMemberTwice | pie/i18n/database.py:127-137 | setting the same member language twice changes nothing the second time |
| I18n.RemoveMember | pie/i18n/database.py:154-168 | the number deleted is 0 or 1 on a unique table; afterwards `get` is `None`; other members are unchanged |
| BaseBase.GetLimit | modules/base/base/database.py:29-37 | `None` exactly when (guild, channel) has no entry, with `None` a valid channel |
| BaseBase.AddLimit | modules/base/base/database.py:19-27 | afterwards exactly one entry exists for (guild, channel), with the given limit or 0; other entries are unchanged |
| BaseBase.AddLimitTwice | modules/base/base/database.py:19-27 | adding the same limit twice changes nothing the second time |
| BaseBase.AllLimits | modules/base/base/database.py:39-47 | exactly the guild's entries, including those whose channel is `None` |
| BaseBase.RemoveLimit | modules/base/base/database.py:49-57 | the number deleted, positive exactly when an entry existed; afterwards `get` is `None`; other entries are unchanged |
| BaseBase.GetBookmark | modules/base/base/database.py:151-158 | `None` exactly when (guild, channel) has no entry |
| BaseBase.AddBookmark | modules/base/base/database.py:142-149 | afterwards exactly one entry exists for (guild, channel), with the given switch or false; other entries are unchanged |
| BaseBase.AddBookmarkTwice | modules/base/base/database.py:142-149 | adding the same switch twice changes nothing the second time |
| BaseBase.AllBookmarks | modules/base/base/database.py:160-167 | exactly the guild's entries |
| BaseBase.RemoveBookmark | modules/base/base/database.py:169-177 | the number deleted, positive exactly when an entry existed; afterwards `get` is `None`; other entries are unchanged |
| BaseBase.GetAutoThread | modules/base/base/database.py:214-221 | `None` exactly when (guild, channel) has no entry |
| BaseBase.AddAutoThread | modules/base/base/database.py:201-212 | afterwards the key's only entry has the new duration, updated in place or created; other entries are unchanged |
| BaseBase.AddAutoThreadTwice | modules/base/base/database.py:201-212 | adding the same duration twice changes nothing the second time |
| BaseBase.AllAutoThreads | modules/base/base/database.py:223-230 | exactly the guild's entries |
| BaseBase.RemoveAutoThread | modules/base/base/database.py:232-240 | the number deleted, positive exactly when an entry existed; afterwards `get` is `None`; other entries are unchanged |
| BotConfig.GetConfig | pie/database/config.py:18-46 | an empty table gets one row with `!`, `en` and `online`; one row is returned unchanged; more is an error; afterwards the table is exactly the returned row |
| BotConfig.GetConfigTwice | pie/database/config.py:41-46 | a second `get` returns the same row and adds nothing |
| BotConfig.WhereAll | pie/database/config.py:41 | a query without a filter sees the whole table |
| BotConfig.Save | pie/database/config.py:48-51 | the row is merged by its id; other ids are kept |
| BotConfig.SaveThenGet | pie/database/config.py:41-51 | after the row from `get` is saved, the next `get` returns it as the only row |
| BotConfig.DumpConfig | pie/database/config.py:59-64 | the dump is prefix, language and status, and with the id it gives back the row |
| BaseAdmin.GetModule | modules/base/admin/database.py:26-30 | `None` exactly when the name is unknown |
| BaseAdmin.AddModule | modules/base/admin/database.py:18-23 | on a table with one entry per name, `get` then returns the entry, whether or not the name existed, and names stay unique; every other row is kept; other names are unchanged |
| BaseAdmin.AddModuleTwice | modules/base/admin/database.py:18-23 | adding the same entry twice changes nothing the second time |
| BaseAdmin.AllModules | modules/base/admin/database.py:33-37 | every stored entry, each name once |

## Left out

- Text.Split: requires `limit > 0`. In Python, `range` raises `ValueError` for a step of 0, and a negative step gives `[]`.
- Text.ParseBool: lower-cases ASCII only. Python's `str.lower` is Unicode-wide, but for the six keywords the only non-ASCII character that lower-cases into them is U+212A KELVIN SIGN, which becomes `k`, and none of the keywords contains `k`.
- `sanitise` with `escape=True`: it calls `discord.utils.escape_markdown`, which is not part of this model.
- ANSI colour details of `create_table` beyond the page prefix and the code strings themselves.
- Git operations (`head_commit`, `change_branch`, `git_clone`, `git_pull`, `git_reset_pull`): subprocess and network I/O.
- `install_requirements`: a pip subprocess.
- `requirements_txt_hash`: SHA-256 is a library call. Its read loop never runs, because `chunk` starts as `b""`, so it always hashes the empty input.
- `RepositoryManager.__new__`: the singleton is process state. Each manager here is a value.
- `configparser` parsing: the parsed INI is part of the abstract filesystem.
- RepoManager.RefreshComplete: does not cover a `repo.conf` that `configparser` cannot parse (`MissingSectionHeaderError`, `ParsingError`) or an `__init__.py` that cannot be decoded (`UnicodeDecodeError`). In the source either error is not a `RepositoryMetadataError`, so it escapes `refresh` and aborts the scan. The model has no parse or decoding failure: a `repo.conf` the filesystem holds no parse for reads as an empty configuration, so every directory ends up as a repository or a log entry.
- Directory listing: `Path.iterdir` is an input sequence. `Path` objects that share a parent sort as their names do, so the sort is modelled on names.
- The text of the log and error messages: each error is a `MetadataError` variant naming its raise site.
- `Repository(path, branch)` with a branch: it checks out a git branch first.
- SQLAlchemy sessions:
  - Each store operation is one atomic step on its own table.
  - Autoflush is modelled only where it decides an outcome (`set_primary`).
  - The access-control `remove` methods never commit, and that is not modelled.
- Autoincrement `idx` columns, in every table except `Config`: no operation on those tables reads them, and their `dump` methods omit them. In `Config`, `idx` is a field of the row. `BotConfig.Save` merges by it, `BotConfig.GetConfig` takes the id the database would assign as a parameter, and `dump` omits it.
- `__repr__` methods.
- The `dump` of `ACDefault`, `ACLevelMappping`, `GuildLanguage`, `MemberLanguage`, `SpamChannel`, `UserPin`, `UserThread` and `Bookmark`: with `idx` left out, each dump is the row itself. `ACDefault.dump` renders the level by its enum name, while `ACLevelMappping.dump` returns the enum member itself.
- Storage.Set: values are `str`, `int` or `bool`. The database column is text, and how the driver converts the value on the way in is not modelled.
- SpamChannels.SetPrimary: the demoted and promoted rows are updated by their (guild, channel) key. Under the unique constraint that key is the row's identity.
