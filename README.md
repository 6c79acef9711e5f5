# A verified model of the SecurityNow archive generator

`generate-snarchive.py` builds a podcast feed of all past SecurityNow
episodes. It fetches the current episode page and one archive page per past
year, finds every anchor named by an episode number, parses the header table
and the title/description texts that follow it into a record, and renders
each record as a feed item. This project models that core in Dafny and
proves what the code promises about it.

Modules:

- `Wrappers`: the `Option` type standing for a lookup that finds nothing or
  a call that raises.
- `PyText`: the Python `str` operations the script relies on (`strip`,
  `split` on one character, `' '.join`, `partition`, `startswith`,
  `replace` of one character, `rjust`, slicing `[:n]`), with their contracts.
- `PyInt`: `int(s)` as an explicit grammar (an optional sign and ASCII
  digits between runs of the whitespace `int()` skips, which is what
  `str.strip()` removes except U+001C..U+001F) and `str(n)`, with the round
  trip between them.
- `Sequences`: concatenating what several steps yield (`yield from`) and
  collecting results of steps that may raise.
- `Extractor` / `ExtractorProperties`: `get_item` (header parsing, the
  number after the first `#`, the minutes with their fallback, removal of a
  leading title, cleaning of the description), the anchor loop of
  `find_episodes_in_page` with its try/skip, and `find_episodes` over all
  pages.
- `Renderer` / `RendererProperties`: the pure parts of `item_rss` (the
  duration `m//60:m%60:00`, the date whose second token is cut to three
  characters, the number padded to four digits) and the collecting loop of
  `generate_rss`.
- `Fetcher` / `FetcherProperties`: the list of page addresses, the cache file
  name of `Cache._fname`, and the expiry each page gets.

An HTML page is modelled as the sequence of its anchors in document order.
Each anchor carries its optional `name` attribute and the optional texts
that BeautifulSoup would find after it: the header table, and the title and
description fonts of the body table. A page that could not be downloaded or
parsed is `None`. The year of the run, the modification time of a cache file
and the current time are parameters.

Four behaviours of the code are worth knowing. The model has each of them:

- Date. The code truncates the SECOND space-separated token of the date, at
  line 169. This is the month of a day-first date such as `"12 Sept 2016"`.
  In `"Sept 12 2016"` the second token is the day, so that date is left
  unchanged (`RendererProperties.MonthFirstExamples`).
- Duration. The duration is not zero-padded: 63 minutes give `"1:3:00"`.
- Crash on a bad date. A date without a space raises `IndexError` inside
  `item_rss`. No handler catches it, so the whole run ends without writing
  the feed (`Renderer.Generation.Crashed`). It is not a skipped record.
- Episode number. It can be any integer `int()` accepts, including 0 and
  negative numbers.

## Model

| member | source | states |
|---|---|---|
| `PyText.Strip` | generate-snarchive.py:134 | `str.strip()`: the result has no whitespace at either end, is empty exactly when the input is all whitespace, and is the input itself when that was already stripped |
| `PyText.StripMiddle` | generate-snarchive.py:134 | `str.strip()` removes whitespace at the ends and nothing else: the input is a run of whitespace, then the result, then a run of whitespace |
| `PyText.StripKeepsChars` | generate-snarchive.py:147 | stripping only removes characters: the result is no longer and has no character the input lacks |
| `PyText.Partition` | generate-snarchive.py:135 | `partition(sep)` raises for an empty separator; otherwise head, separator and tail concatenate to the input, the separator is at its first occurrence, and when it does not occur the whole input is the head with an empty tail |
| `PyText.Split` | generate-snarchive.py:134 | `split(sep)` gives at least one piece, no piece contains the separator, and joining the pieces with it gives the input back |
| `PyText.JoinInjective` | generate-snarchive.py:170 | two lists of separator-free pieces that join to the same text are the same list |
| `PyText.SplitJoin` | generate-snarchive.py:168-170 | splitting undoes joining when no piece contains the separator |
| `PyText.SplitThree` | generate-snarchive.py:134 | three separator-free fields joined by the separator split back into exactly those three |
| `PyText.SplitCount` | generate-snarchive.py:134 | there is more than one piece exactly when the separator occurs; otherwise the only piece is the text itself |
| `PyText.ReplaceChar` | generate-snarchive.py:55 | `replace(c, d)` of one character: every `c` becomes `d`, every other character stays in place |
| `PyText.RemoveChar` | generate-snarchive.py:149 | deleting a character removes all its occurrences and keeps every other character as often as it occurs, and changes nothing when it is absent |
| `PyText.RemoveCharConcat` | generate-snarchive.py:149 | deleting a character works piecewise over a concatenation, so the order of what remains is kept |
| `PyText.RemoveSpaceKeepsStripped` | generate-snarchive.py:147-149 | deleting a whitespace character from stripped text leaves it stripped, and empty only when it was empty |
| `PyText.RJust` | generate-snarchive.py:173 | `rjust(width, fill)`: as long as the text or the width, whichever is more, ending in the text and starting with fill characters only |
| `PyText.Take` | generate-snarchive.py:169 | `s[:n]`: the first `n` characters, or all of a shorter text |
| `PyInt.NatToStr` | generate-snarchive.py:172 | `str(n)` of a non-negative number: decimal digits whose value is `n`, without a leading zero |
| `PyInt.ParseIntGrammar` | generate-snarchive.py:124 | `int(s)` gives `v` exactly when `s` splits into a run of whitespace `int()` skips, a literal of an optional sign and ASCII digits whose signed decimal value is `v`, and another such run; when there is no such split it raises |
| `PyInt.StrayCharacter` | generate-snarchive.py:124 | a character anywhere in the text that is neither skipped whitespace, nor a digit, nor a sign makes `int()` raise |
| `PyInt.IntSpaceExamples` | generate-snarchive.py:124 | `int()` raises on `"\x1e7"` and on `"7\x1e"`: U+001E is not whitespace to it |
| `PyInt.StripSeparatorExample` | generate-snarchive.py:134 | `str.strip()`, unlike `int()`, removes U+001E: `"\x1e7"` strips to `"7"` |
| `PyInt.ParseIntToStr` | generate-snarchive.py:131 | `int(str(n)) == n` for every integer (without the digit limit of newer Pythons, see "Left out"), and `str(n)` has no whitespace at either end |
| `PyInt.IntToStrChars` | generate-snarchive.py:172 | `str(n)` has no character other than digits and `-`, ends in a digit, and is all digits for `n >= 0` |
| `PyInt.IntToStrInjective` | generate-snarchive.py:131 | different numbers have different decimal forms |
| `PyInt.LeadingZeros` | generate-snarchive.py:173 | leading zeros do not change the value of a digit string |
| `PyInt.ParseIntLeadingZeros` | generate-snarchive.py:124 | `int()` skips leading zeros: `int('007') == 7` |
| `PyInt.DigitsParse` | generate-snarchive.py:124 | `int()` of a stripped non-empty digit string is its decimal value |
| `PyInt.ParseIntBlank` | generate-snarchive.py:135 | `int()` of an empty text, or of one made only of characters for which `str.isspace()` holds, raises |
| `Sequences.ConcatAppend` | generate-snarchive.py:114 | what consecutive steps yield is what the first part yields followed by what the rest yields |
| `Sequences.ConcatMembers` | generate-snarchive.py:114 | an element is yielded exactly when one of the steps yields it |
| `Sequences.CollectValues` | generate-snarchive.py:184-189 | collecting succeeds exactly when every step does, and then holds one value per step, in order |
| `Extractor.RemoveTitle` | generate-snarchive.py:145-146 | a description starting with the title loses that one leading copy; any other description is kept; an empty title raises |
| `Extractor.CleanDescription` | generate-snarchive.py:147-149 | the cleaned description is stripped and free of U+001E, and empty exactly when the text was all whitespace |
| `Extractor.ParseEpisode` | generate-snarchive.py:133-159 | every record produced is well formed: a non-empty stripped description without U+001E, a stripped title, stripped header fields without `|` |
| `Extractor.FindNamed` | generate-snarchive.py:131 | the lookup finds the first anchor with exactly that name, or reports that no anchor has it |
| `Extractor.AnchorOutcome` | generate-snarchive.py:123-125 | an anchor without a name, or whose name `int()` rejects, yields nothing |
| `Extractor.PageRecordsSnoc` | generate-snarchive.py:122-127 | one more anchor appends exactly what that anchor yields |
| `Extractor.FindEpisodesInPage` | generate-snarchive.py:119-127 | the loop yields, in anchor order, what each anchor yields, skipping every anchor whose handling raises |
| `Extractor.AllRecordsAppend` | generate-snarchive.py:109-116 | the records of several pages are those of each page in turn |
| `Extractor.FindEpisodes` | generate-snarchive.py:109-116 | the loop over the pages yields each fetched page's records in page order |
| `ExtractorProperties.HeaderFields` | generate-snarchive.py:134 | a header of three `\|`-free fields splits into exactly those fields |
| `ExtractorProperties.NumberWithoutHash` | generate-snarchive.py:135 | an episode label without `#` has no number, so the record is dropped |
| `ExtractorProperties.NumberAfterFirstHash` | generate-snarchive.py:135 | the number is `int()` of the text after the first `#` |
| `ExtractorProperties.NumberFirstHash` | generate-snarchive.py:135 | whenever a label has a number, it was read after its first `#` |
| `ExtractorProperties.NumberOfLabel` | generate-snarchive.py:135 | a label `p#n` with `#`-free `p` has the number `n` |
| `ExtractorProperties.FirstToken` | generate-snarchive.py:137 | the first space-separated token of `a + ' ' + rest` is `a` when `a` has no space |
| `ExtractorProperties.MinutesOfLeadingNumber` | generate-snarchive.py:136-139 | a length field that starts with a number, alone or followed by a space, gives that many minutes |
| `ExtractorProperties.MinutesFallback` | generate-snarchive.py:136-139 | a length field whose first space-separated word, alone or followed by a space, does not split into an integer literal between whitespace `int()` skips gives 1 minute |
| `ExtractorProperties.NotANumber` | generate-snarchive.py:137 | `int()` rejects a stripped word that starts with neither a digit nor a sign |
| `ExtractorProperties.MinutesExample` | generate-snarchive.py:137 | `"63 min"` gives 63 minutes |
| `ExtractorProperties.MinutesFallbackExample` | generate-snarchive.py:138-139 | `"about an hour"` gives 1 minute |
| `ExtractorProperties.MinutesSeparatorExample` | generate-snarchive.py:137-139 | `"63\x1e min"` gives 1 minute: `int()` rejects the U+001E glued to the number |
| `ExtractorProperties.TitleRemovedOnce` | generate-snarchive.py:145-146 | only the leading copy of a non-empty title is removed; later copies stay |
| `ExtractorProperties.RemoveTitleRemainder` | generate-snarchive.py:145-146 | for a non-empty title, what is left is the text after the leading copy, or the whole description |
| `ExtractorProperties.ParseEpisodeAccepts` | generate-snarchive.py:133-151 | a record is produced exactly when there is a header of three fields, the label has a number, the title is present and non-empty, and the description minus the title has a non-whitespace character; the length never drops a record |
| `ExtractorProperties.ParseEpisodeFields` | generate-snarchive.py:133-159 | a produced record holds the stripped header fields, the number after the first `#`, the minutes of the length field, the stripped title and the cleaned rest of the description |
| `ExtractorProperties.ParseEpisodeOfParts` | generate-snarchive.py:133-159 | an anchor built from a number, a date, a length, a title and a description starting with that title parses back into a record of that label, date, length, the minutes of that length, that number and title, and the description minus the title as `CleanDescription` leaves it, whatever the anchor's name |
| `ExtractorProperties.ParseEpisodeOfFields` | generate-snarchive.py:133-159 | a header that splits into three stripped fields with a numbered label gives the record of those fields |
| `ExtractorProperties.PageRecordsAppend` | generate-snarchive.py:122-127 | extraction is compositional over runs of anchors |
| `ExtractorProperties.AnchorsIndependent` | generate-snarchive.py:122-127 | an anchor contributes only its own outcome, and a failing anchor changes nothing before or after it |
| `ExtractorProperties.PageRecordsBound` | generate-snarchive.py:122-125 | at most one record per anchor |
| `ExtractorProperties.PageRecordsMembers` | generate-snarchive.py:122-125 | a record is yielded exactly when some anchor produces it, and every yielded record is well formed |
| `ExtractorProperties.AnchorWellFormed` | generate-snarchive.py:125 | whatever an anchor yields is well formed |
| `ExtractorProperties.SameNumberSameOutcome` | generate-snarchive.py:124-131 | two anchors whose names denote the same integer yield the same outcome |
| `ExtractorProperties.ResolvesToFirstCanonical` | generate-snarchive.py:131 | the outcome is that of parsing the first anchor named `str(int(name))` whenever such an anchor exists, any record comes from that anchor, and there is none when no anchor has that name |
| `ExtractorProperties.OwnTextsWhenFirst` | generate-snarchive.py:131 | the first anchor with a canonical name is parsed from its own texts |
| `ExtractorProperties.PaddedNameResolves` | generate-snarchive.py:124-131 | an anchor named `"007"` yields what the lookup under `"7"` finds, or nothing when there is no such anchor |
| `ExtractorProperties.PaddedDuplicate` | generate-snarchive.py:119-131 | a page with anchors `"n"` and `"0n"` yields the first one's record twice: nothing removes duplicates |
| `ExtractorProperties.FailedPageContributesNothing` | generate-snarchive.py:111-116 | a page whose download or parsing raised contributes no record, and the pages around it are unaffected |
| `Renderer.GenerateRss` | generate-snarchive.py:181-197 | the loop appends one item per record in order, ends in the crash of the first record that raises, and writes the feed only when there are items |
| `Renderer.RenderAllFails` | generate-snarchive.py:184 | once a record raises, the whole run raises |
| `RendererProperties.DurationParts` | generate-snarchive.py:165 | the duration has three `:`-separated parts: `str(m // 60)`, `str(m % 60)` and `00` |
| `RendererProperties.DurationRoundTrip` | generate-snarchive.py:165 | the hours and the minutes read back from the duration add up to the minutes, with the minutes part between 0 and 59, negative minutes included |
| `RendererProperties.DurationExamples` | generate-snarchive.py:165 | 63 gives `"1:3:00"`, 5 gives `"0:5:00"`, -1 gives `"-1:59:00"` |
| `RendererProperties.NormalizeDateTokens` | generate-snarchive.py:167-170 | a date without a space raises; otherwise the token count and every token but the second stay, and the second is cut to at most three characters |
| `RendererProperties.NormalizeDateIdempotent` | generate-snarchive.py:167-170 | normalising a normalised date changes nothing |
| `RendererProperties.DayMonthYear` | generate-snarchive.py:167-170 | a day-month-year date keeps day and year and cuts the month to three characters |
| `RendererProperties.DayFirstExample` | generate-snarchive.py:169 | `"12 Sept 2016"` becomes `"12 Sep 2016"` |
| `RendererProperties.MonthFirstExamples` | generate-snarchive.py:169 | `"Sept 12 2016"` and `"May 3 2016"` are left as they are |
| `RendererProperties.OneTokenExample` | generate-snarchive.py:169 | `"2016"` raises |
| `RendererProperties.Nr4Value` | generate-snarchive.py:173 | a non-negative number is padded to at least four digits, exactly four below 10000, which `int()` reads back as the number |
| `RendererProperties.Nr4Injective` | generate-snarchive.py:173 | different non-negative numbers get different padded forms |
| `RendererProperties.Nr4Examples` | generate-snarchive.py:173 | 7 gives `"0007"`; -5 gives `"00-5"`, the sign behind the padding |
| `RendererProperties.RenderItemFields` | generate-snarchive.py:162-177 | an item raises exactly when the date has no space; otherwise it carries the record's number, its text and padded forms, the normalised date, the duration, the title and the description |
| `RendererProperties.RenderAllItems` | generate-snarchive.py:163-177 | rendering succeeds exactly when every record does, with one item per record in record order |
| `RendererProperties.GenerateOutcomes` | generate-snarchive.py:181-197 | the run crashes exactly when some record's date has no space, finds no episodes exactly when there are no records, and otherwise writes one item per record in order |
| `Fetcher.CacheFileName` | generate-snarchive.py:53-56 | the six characters are replaced one after another, which is the same as replacing each unsafe character at once, and the result is joined to the cache directory |
| `FetcherProperties.ArchiveUrlsShape` | generate-snarchive.py:34-37 | the current page comes first, then one page per year from the year before the run down to `backto`; with `backto` 0 only the current page |
| `FetcherProperties.PastUrlInjective` | generate-snarchive.py:37 | pages of different years have different addresses |
| `FetcherProperties.PastUrlIsNotCurrent` | generate-snarchive.py:35-37 | no past page is the current page, before or after sanitising |
| `FetcherProperties.ArchiveUrlsDistinct` | generate-snarchive.py:35-37 | no page is fetched twice |
| `FetcherProperties.SanitizedChars` | generate-snarchive.py:54-55 | sanitising keeps the length and every safe character, turns each unsafe one into `_`, and leaves none of the six behind |
| `FetcherProperties.SanitizedIdempotent` | generate-snarchive.py:54-55 | sanitising twice is sanitising once |
| `FetcherProperties.SanitizedSafe` | generate-snarchive.py:54-55 | a text without unsafe characters is unchanged |
| `FetcherProperties.SanitizedCollision` | generate-snarchive.py:53-56 | different addresses can share a cache file: `"a?b"` and `"a=b"` both become `"a_b"` |
| `FetcherProperties.CacheFileNameForm` | generate-snarchive.py:56 | the cache file is `.cache/` followed by the sanitised address |
| `FetcherProperties.PastFilesDistinct` | generate-snarchive.py:53-56 | pages of different years are cached in different files |
| `FetcherProperties.ExpiryOfArchive` | generate-snarchive.py:94 | only the first, current page gets a one-day expiry and goes stale after a day; every past page gets 0 and never expires |

## Left out

- Network access (`download_page` and `requests.get`, lines 91-106).
  Pages are inputs; a page whose download or parsing raised is `None`.
- The cache's file operations (`Cache.__init__`, `load`, `save`) and the
  `if content:` test on what it returns. They are filesystem effects; only
  the file name and the expiry rule are modelled.
- The clock. `now`, the year of the run and a file's `st_mtime` are integer
  parameters in seconds. Time zones are not modelled.
- BeautifulSoup. An anchor is abstracted into the optional texts that
  `findNext('table')` and `findChild('font', size=...)` would return. The
  library's traversal rules, and which table counts as "next", are not
  modelled.
- `string.Template` substitution, the template files, `escape`, the `NOW`
  timestamp and the `''.join` of the items. They are library calls and file
  contents. `Renderer.Item` holds the values before escaping.
- All `print` output, the `header` flag of `generate_rss`, and writing the
  output file.
- `int()` accepts two more forms: `_` digit separators (`'1_000'`) and
  non-ASCII decimal digits (e.g. Arabic-Indic digits). The model excludes
  both and accepts only ASCII digits after an optional sign. The whitespace
  around the literal is modelled as CPython skips it: any character for
  which `str.isspace()` holds except U+001C..U+001F, which `int()` rejects
  (`PyInt.IsIntSpace`).
- `PyText.IsSpace` enumerates the characters for which Python's
  `str.isspace()` holds, rather than being abstract. The proofs use only
  concrete facts about it: U+001E is whitespace to it and not to `int()`, and digits, signs, `#`,
  `|`, `:`, the space-free words of the examples and the letters that start
  them are not.
- The UTF-8 `encode()`/`decode()` around the removal of U+001E is modelled
  as deleting that character. Dafny characters are Unicode scalar values, so
  the lone surrogates that would make `encode()` raise cannot occur.
- `assert description` disappears under `python -O`. The model keeps the
  check.
- `os.path.join` is modelled as `posixpath.join`; the Windows joining rules
  are not modelled.
- Interleaving. The record stream is lazy, so the pages after a crashing
  record are never downloaded. The model states only the end result of a
  run, not the order of downloads and prints.
- `PyInt.ParseInt`, `PyInt.IntToStr`, `PyText.Join`, `Extractor.Number`,
  `Extractor.Minutes`, `Extractor.GetItem`, `Renderer.Duration`,
  `Renderer.NormalizeDate`, `Renderer.Nr4`, `Renderer.RenderItem`,
  `Renderer.Generate`, `Fetcher.PastUrl`, `Fetcher.ArchiveUrls`,
  `Fetcher.Sanitized`, `Fetcher.JoinPath`, `Fetcher.ExpirationDays` and
  `Fetcher.IsExpired` carry no `ensures` of their own, and neither do the
  specification functions `Extractor.PageRecords`, `Extractor.AllRecords`
  and `Renderer.RenderAll`. What they mean is stated by the lemmas and
  methods listed above. For example, `GetItem` is described by
  `ParseEpisodeAccepts`, `ParseEpisodeFields` and `GetItemFound`;
  `RenderItem` by `RenderItemFields`; `Generate` by `GenerateOutcomes`;
  `JoinPath` by `CacheFileNameForm`; and `PastUrl` by `PastUrlInjective`.
- `PyInt.ParseInt` and `PyInt.IntToStr` have no digit limit. Python 3.11
  and later, and the security releases of 3.7-3.10, raise `ValueError`
  when `int()` of a decimal string or `str()` of an integer would involve
  more than 4300 digits (`sys.get_int_max_str_digits()`). Such a Python
  skips an anchor whose number has more than 4300 digits; the model parses
  it. The limit depends on the interpreter version and its settings, which
  the script does not fix. `PyInt.ParseIntToStr` and the lemmas built on it
  therefore hold for every integer in the model, but only for numbers of at
  most 4300 digits in such a Python.
