# NFL players scraper, modelled in Dafny

This project models the collecting core of the NFL.com active-roster scraper,
the class `NFLPlayersScraper` in `nfl_players_scraper.py`. The scraper visits
one listing per letter `a`..`z` at `https://www.nfl.com/players/active/<letter>`.
It walks each listing page by page. On every page it appends one `Player`
record per table row to the list `_players`. It stops a listing after the page
whose "next" control is inactive. The project proves what the scraper collects,
in which order, and how it ends when something goes wrong.

Files:

- `team_name.dfy` (module `TeamName`): Python's `str.split(' ')` with one
  separator character, its inverse `Join`, and `_format_team` as the last
  piece of the split.
- `roster.dfy` (module `Roster`): the record, the table row, the alphabet,
  the listing URLs, and row extraction. A row yields a record, or the error
  the Python code would raise. This module also defines the records of a
  sequence of rows, cut at the first row that yields none.
- `collection.dfy` (module `Collection`): a reference definition of a whole
  scrape, stated on values. It gives the records a scrape collects, the error
  that stops it, and the URLs it opens and pages it extracts, in order. It
  also holds the lemmas that relate these definitions.
- `scraper.dfy` (module `NflPlayersScraper`): the imperative scraper.
  - `PlayerList` is the shared `_players` list.
  - `Scraper` has the browser position as fields and the loops of
    `get_players` and `_get_player_data` as methods. Each method is proved
    against the reference definition.

The browser is reduced to a `Site`: a map from each URL the site serves to its
listing, a non-empty sequence of pages. A page is a sequence of `Row`s. A row
holds the text of its full-name element, if it has one, and the texts of its
`td` cells. The last page of a listing is the one whose "next" control is
inactive. A URL the site does not serve stands for `page.goto` raising
(`browser.py:38`), that is a network error or a timeout: a navigation failure.

The scrape is also described on values, as a log of events. Visiting a letter
opens its URL and, when the site serves it, extracts the pages the page loop
walks (`Walked`): up to the first page with a row that yields no record, or
else every page. `LettersLog` is the log of visiting some letters in turn.
`StopLetter` is the first letter that ends the scrape, because its URL is not
served or its listing has such a row. `RunLog` is the log up to and including
that letter, or of every letter when none ends the scrape.

Python raises an exception at the first row it cannot read, and that ends the
whole run. The model returns that error as a value. The records appended before
the failure stay in the list, because Python appends row by row.

`_players` is a class attribute. It is one list shared by every scraper
instance, and nothing ever empties it, so a second run appends a second copy
of the roster. `ScrapeTwice` proves this. The model follows the code here, not
the intent of a fresh accumulator per run.

The nested loop of `get_players` (lines 19-28) is split into two methods.
`VisitLetters` is the letter loop. `WalkPages` is the page loop it runs for
each letter.

## Model

| member | source | states |
|---|---|---|
| TeamName.Split | nfl_players_scraper.py:109 | `str.split` with one separator: there is always at least one piece, no piece contains the separator, and the number of pieces is one more than the number of separators |
| TeamName.JoinSplit | nfl_players_scraper.py:109 | joining the pieces of a split with the separator gives back the original string, so `Split` loses nothing |
| TeamName.SplitJoin | nfl_players_scraper.py:109 | splitting a join of separator-free pieces gives back those pieces |
| TeamName.SplitWithoutSeparator | nfl_players_scraper.py:109 | a string without the separator splits into itself alone |
| TeamName.SplitAfterPiece | nfl_players_scraper.py:109 | a separator-free piece followed by the separator splits off as the first piece |
| TeamName.LastPieceIsFinalField | nfl_players_scraper.py:109 | the last piece of a split is a suffix of the string that is either all of it or directly follows a separator |
| TeamName.FinalFieldCons | nfl_players_scraper.py:109 | a leading character that is a separator, or lies before the final field, leaves the final field unchanged |
| TeamName.FormatTeam | nfl_players_scraper.py:101-109 | `_format_team` returns the last piece of `team.split(' ')`, which is never longer than the team text; which piece it is, is stated by `FormatTeamIsLastWord` |
| TeamName.FormatTeamIsLastWord | nfl_players_scraper.py:101-109 | `_format_team` returns a space-free suffix of the team text that is all of it or follows its last space |
| TeamName.FormatTeamUnique | nfl_players_scraper.py:101-109 | any space-free suffix that is the whole text or follows a space is exactly what `_format_team` returns, so its result is determined |
| TeamName.FormatTeamKeepsSingleWord | nfl_players_scraper.py:101-109 | a team name with no space is returned unchanged |
| TeamName.FormatTeamDropsCity | nfl_players_scraper.py:101-109 | "New England Patriots" becomes "Patriots" |
| TeamName.FormatTeamTrailingSpace | nfl_players_scraper.py:101-109 | a trailing space gives the empty string, as Python's `split(' ')` does |
| Roster.Alphabet | nfl_players_scraper.py:32-38 | the alphabet has 26 letters, and letter `i` is the `i`-th letter after `a` |
| Roster.AlphabetOrderedAndComplete | nfl_players_scraper.py:32-38 | the letters are strictly increasing, so none repeats, and they are exactly `a`..`z` |
| Roster.Url | nfl_players_scraper.py:20 | a letter's listing URL is the fixed prefix followed by that letter |
| Roster.UrlInjective | nfl_players_scraper.py:20 | different letters have different listing URLs |
| Roster.TeamPositionStatus | nfl_players_scraper.py:87-99 | succeeds exactly when the row has at least four cells, then gives the formatted cell 1 and the raw cells 2 and 3; otherwise it fails with the cell count, as `stats[1..3]` raises `IndexError` |
| Roster.ToPlayer | nfl_players_scraper.py:57-59 | a row yields a record exactly when it has a name element and at least four cells; the record holds the name, the formatted team, the position and the status; a missing name is reported before missing cells, as the name is read first |
| Roster.Records | nfl_players_scraper.py:56-60 | good rows give one record each, in row order |
| Roster.RecordsStep | nfl_players_scraper.py:56-60 | one more good row adds its record at the end |
| Roster.RecordsAppend | nfl_players_scraper.py:56-60 | the records of two row sequences in a row are the records of the first followed by those of the second |
| Roster.FirstBadFrom | nfl_players_scraper.py:56-60 | the first row at or after a position that yields no record: every row before it is good and it is bad, or there is none |
| Roster.FirstBad | nfl_players_scraper.py:56-60 | the first row that yields no record: every row before it is good and it is bad, or it is the length when every row is good |
| Roster.FirstBadAfter | nfl_players_scraper.py:56-60 | good rows in front move the first bad row back by their number |
| Roster.FirstBadOfPrefix | nfl_players_scraper.py:56-60 | the first bad row of a prefix that has one is the first bad row of the whole |
| Roster.FirstBadWithin | nfl_players_scraper.py:56-60 | good rows followed by rows with a bad one: the scrape stops at the bad row of the second part, after all the good rows |
| Roster.GoodRowsAppend | nfl_players_scraper.py:56-60 | good rows followed by good rows are all good, and their records follow each other |
| Roster.GoodRowsSplit | nfl_players_scraper.py:56-60 | rows that all yield records are made of parts that all do |
| Collection.FirstUnservedFrom | nfl_players_scraper.py:19-20 | the first letter at or after a position whose URL is not served: every letter before it is served and it is not, or there is none |
| Collection.FirstUnserved | nfl_players_scraper.py:19-20 | the first letter whose URL is not served, or the number of letters when every URL is served |
| Collection.ExtractLog | nfl_players_scraper.py:21-27 | a listing of `n` pages is extracted `n` times, pages `0` to `n - 1` in order |
| Collection.FirstBadPageFrom | nfl_players_scraper.py:21-27 | the first page at or after a position that has a row yielding no record: every page before it has only good rows and it has a bad one, or there is none |
| Collection.FirstBadPage | nfl_players_scraper.py:21-27 | the first page with a row yielding no record: every page before it has only good rows and it has a bad one, or it is the number of pages |
| Collection.Walked | nfl_players_scraper.py:21-27 | the page loop extracts at least one page and at most all of them, and it stops before the last page only after a page with a bad row |
| Collection.StopLetterFrom | nfl_players_scraper.py:19-28 | the first letter at or after a position that ends the scrape: every letter before it is served with only good rows, and it is unserved or has a bad row, or there is none |
| Collection.StopLetter | nfl_players_scraper.py:19-28 | the first letter that ends the scrape, or the number of letters when none does; every letter before it is served with only good rows |
| Collection.FlattenStep | nfl_players_scraper.py:21-27 | the rows of one more page come after the rows of the pages before it |
| Collection.FlattenPrefix | nfl_players_scraper.py:21-27 | the rows of the first pages of a listing come first among its rows |
| Collection.SiteRowsStep | nfl_players_scraper.py:19-28 | the rows of one more letter come after the rows of the letters before it |
| Collection.SiteRowsPrefix | nfl_players_scraper.py:19-28 | the rows of the first letters come first among the rows of more letters |
| Collection.LettersLogStep | nfl_players_scraper.py:19-28 | one more letter adds its own events after those of the letters before it |
| Collection.LetterLogAppend | nfl_players_scraper.py:19-27 | visiting a letter appends the opening of its URL and, when it is served, the extraction of each page the page loop walks, to the events of the letters before it |
| Collection.GoodPagesBefore | nfl_players_scraper.py:21-27 | pages whose rows all yield records all come before the first page with a bad row |
| Collection.GoodLettersBefore | nfl_players_scraper.py:19-28 | letters that are served and whose rows all yield records all come before the letter that ends the scrape |
| Collection.ListingStopsAtPage | nfl_players_scraper.py:21-28 | a bad row on a page after only good rows is the listing's first bad row, and that page is the last one the page loop walks; the records before it are those of the earlier pages and of the page's rows before it |
| Collection.PageCompleted | nfl_players_scraper.py:21-28 | a page of good rows extends the good rows read and the records collected by its own; after the last page they are the whole listing's, and every page has been walked |
| Collection.StopsInListing | nfl_players_scraper.py:19-28 | a bad row in a letter's listing ends the scrape with that row's error, and the records are those of everything read before it |
| Collection.LetterCompleted | nfl_players_scraper.py:19-28 | a letter with only good rows extends the rows read and the records collected by its own |
| Collection.StopsAtUnservedLetter | nfl_players_scraper.py:19-20 | an unserved letter after only good rows ends the scrape with a navigation failure, and the records are those of every row read |
| Collection.CollectsEveryRow | nfl_players_scraper.py:19-30 | when every URL is served and every row is good, nothing fails and the records are those of every row of every page of every letter |
| Collection.ScrapeCollectsEveryRow | nfl_players_scraper.py:12-30 | for the alphabet, with every URL served and every row good: exactly one record per row, in letter, page and row order |
| Collection.OpensAppend | nfl_players_scraper.py:19-20 | the URLs opened by two event sequences in a row are those of the first followed by those of the second |
| Collection.OpensOfExtracts | nfl_players_scraper.py:21-27 | extracting pages opens no URL |
| Collection.OpensOfLetter | nfl_players_scraper.py:19-27 | one letter's events open its URL exactly once |
| Collection.LettersLogOpens | nfl_players_scraper.py:19-20 | visiting letters opens their URLs, one per letter, in letter order |
| Collection.RunLogOpens | nfl_players_scraper.py:19-20 | a scrape opens the URLs of its letters in letter order, up to and including the letter that ends it, or every letter's when none does |
| Collection.AlphabetOpenedOnceEach | nfl_players_scraper.py:18-20 | a scrape of the alphabet opens the URLs of its letters in alphabet order, up to and including the letter that ends it (all 26 when none does), and no URL twice |
| Collection.LettersLogPrefix | nfl_players_scraper.py:19-28 | the events of the first letters come first among the events of more letters |
| Collection.RunLogIsPrefix | nfl_players_scraper.py:19-28 | the events of any scrape, failing or not, are a prefix of the events of visiting every letter |
| Collection.RunLogComplete | nfl_players_scraper.py:19-28 | when no letter ends the scrape, its events are those of visiting every letter |
| Collection.RunLogStops | nfl_players_scraper.py:19-28 | a letter that is unserved or has a bad row, after letters served with only good rows, is the one that ends the scrape, and the scrape's events are those of the letters up to and including it |
| Collection.TwoPageLetterRows | nfl_players_scraper.py:21-28 | a letter served as two pages of two rows and one row gives those three rows, in page order |
| Collection.TwoPageLetterLog | nfl_players_scraper.py:19-28 | with two pages of good rows served for `a`, both are extracted, in order, before `b` is opened |
| Collection.TwoPageLetterRun | nfl_players_scraper.py:19-28 | in the scrape's own events, with two pages of good rows served for `a`, both are extracted, in order, before `b` is opened |
| Collection.TwoPageLetterStopsEarly | nfl_players_scraper.py:19-28 | a bad row on the first of two pages served for `a` ends the scrape there: the second page is never extracted and `b` is never opened |
| NflPlayersScraper.PlayerList.constructor | nfl_players_scraper.py:10 | a new list is empty |
| NflPlayersScraper.PlayerList.Append | nfl_players_scraper.py:60 | appending adds the record at the end of the shared list and changes nothing else |
| NflPlayersScraper.Scraper.constructor | nfl_players_scraper.py:8-10 | a new scraper shares the given player list and has not opened anything yet |
| NflPlayersScraper.Scraper.OpenUrl | nfl_players_scraper.py:20 | opening a served URL shows the first page of its listing; an unserved URL fails and leaves the position as it was |
| NflPlayersScraper.Scraper.IsLastPage | nfl_players_scraper.py:40-47 | the inactive "next" control is found exactly when the cursor is on the listing's final page |
| NflPlayersScraper.Scraper.GoToNextPage | nfl_players_scraper.py:49-51 | on a page that is not the last, the next page is shown |
| NflPlayersScraper.Scraper.GetPlayerData | nfl_players_scraper.py:53-60 | the list grows by the records of the page's rows up to its first bad row; the result is that row's error, or none when every row is good |
| NflPlayersScraper.Scraper.WalkPages | nfl_players_scraper.py:21-28 | the list grows by the records of the listing's rows, page by page, up to the first bad row, whose error is returned; the pages extracted are exactly those the page loop walks, once each, in order, whether it fails or not |
| NflPlayersScraper.Scraper.VisitLetters | nfl_players_scraper.py:19-28 | the list grows by exactly `Collected`, the result is exactly `Failure`, it fails exactly when `StopLetter` is a letter, and the events are exactly `RunLog`, whether it fails or not |
| NflPlayersScraper.Scraper.GetPlayers | nfl_players_scraper.py:12-30 | over the whole alphabet: the list grows by `Collected`; the result is the whole shared list exactly when `Failure` is none and no letter ends the scrape, and `Failure`'s error otherwise; the events are `RunLog`, and `LettersLog` of every letter when nothing fails |
| NflPlayersScraper.ScrapeTwice | nfl_players_scraper.py:10 | two scrapers share `_players`: when the first run succeeds with the collected records, a second run by a new scraper returns those records twice over; each result is the list's contents when its run returns |

## Left out

- Starting and closing the browser and the `page` object (`browser.py`) are
  left out, as they drive a real browser.
- The waits and the scrolling are left out. `_scroll_down` (`browser.py:40-47`)
  makes the page render its lazily loaded rows before they are read (line 23).
  A page is modelled as the rows present once the waits and the scrolling have
  run.
- The CSS queries are reduced to the row's name text and cell texts
  (lines 62-98), and the inactive "next" control to the cursor being on the
  listing's last page (lines 45-47).
- `main` and the JSON output (lines 112-116) are left out, as file I/O. The
  `Player` class's internals are not part of this model; a record is its four
  strings.
- A page without a `tbody` element makes `_get_table` return `None`, and the
  next call fails. This is not modelled: a page always has a row sequence.
- A URL the site does not serve stands for exactly the failures on which
  `page.goto` raises (`browser.py:38`): network errors and timeouts.
- An HTTP error page, such as a 404, is left out. `goto` returns normally for
  it, and Python goes on to read that page's table (lines 54 and 67); the model
  has no such page.
- A page with no "next" control at all is left out. `_is_last_page` finds no
  inactive control there and returns False (lines 45-47), so `_go_to_next_page`
  runs and its `click()` on `None` raises `AttributeError` (line 51), ending the
  run after that page's records. In the model every listing marks its final
  page as the last one, so such a page cannot be expressed.
- Every listing has a last page. A site whose "next" control never becomes
  inactive would make Python loop forever; the model has no such site.
- NflPlayersScraper.Scraper.GetPlayers: returns a copy of the shared list's
  contents. Python returns the list object itself, so later appends would show
  through it; that aliasing is not modelled. After `ScrapeTwice`, Python's first
  result is the same object as the second, so it too holds the doubled list.
