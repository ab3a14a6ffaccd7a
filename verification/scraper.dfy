/**
 * The roster scraper: for each letter it opens that letter's listing, and on
 * each page it appends one record per table row to the shared player list,
 * then stops if the page is the last one or moves to the next page.
 *
 * The browser is reduced to what the scraper reads from it: the listing behind
 * each URL, the page currently shown, and whether that page is the last one.
 */
module NflPlayersScraper {
  import opened Roster
  import opened Collection

  /** The list behind the class attribute `_players`. A class attribute is one
      object shared by every scraper, and nothing ever empties it. */
  class PlayerList {
    var items: seq<Player>

    constructor ()
      ensures items == []
    {
      items := [];
    }

    method Append(p: Player)
      modifies this
      ensures items == old(items) + [p]
    {
      items := items + [p];
    }
  }

  class Scraper {
    /** The shared `_players` list. */
    const players: PlayerList
    /** What the browser is served at each listing URL. */
    const site: Site
    /** The browser's position: the URL open, the pages of its listing and the page shown. */
    var url: string
    var pages: seq<Page>
    var cursor: nat
    /** The URLs opened and the pages extracted, in order. */
    ghost var log: seq<Event>

    /** A listing is open and its current page is shown. */
    predicate OnListing()
      reads this
    {
      cursor < |pages|
    }

    constructor (players: PlayerList, site: Site)
      ensures this.players == players && this.site == site
      ensures url == "" && pages == [] && cursor == 0 && log == []
    {
      this.players := players;
      this.site := site;
      url, pages, cursor := "", [], 0;
      log := [];
    }

    /** Loads a listing and shows its first page; fails when the URL is not served. */
    method OpenUrl(u: string) returns (ok: bool)
      modifies this`url, this`pages, this`cursor, this`log
      ensures log == old(log) + [Open(u)]
      ensures ok == (u in site)
      ensures ok ==> url == u && pages == site[u] && cursor == 0 && OnListing()
      ensures !ok ==> url == old(url) && pages == old(pages) && cursor == old(cursor)
    {
      log := log + [Open(u)];
      ok := u in site;
      if ok {
        url, pages, cursor := u, site[u], 0;
      }
    }

    /** Queries the "next" control: it is inactive exactly when the page shown
        is the last page of the listing. */
    method IsLastPage() returns (last: bool)
      requires OnListing()
      ensures last <==> cursor == |pages| - 1
    {
      last := cursor == |pages| - 1;
    }

    /** Activates the "next" control; only done on a page that is not the last. */
    method GoToNextPage()
      requires OnListing() && cursor < |pages| - 1
      modifies this`cursor
      ensures cursor == old(cursor) + 1 && OnListing()
    {
      cursor := cursor + 1;
    }

    /** Appends one record per row of the current page, in row order. A row
        without a record stops the scrape with its error; the records of the
        rows before it stay appended. */
    method GetPlayerData() returns (failure: Option<ScrapeError>)
      requires OnListing()
      modifies players, this`log
      ensures var rows := pages[cursor]; var k := FirstBad(rows);
        players.items == old(players.items) + Records(rows[..k]) &&
        failure == (if k == |rows| then None else Some(ToPlayer(rows[k]).error))
      ensures log == old(log) + [Extract(url, cursor)]
    {
      var rows := pages[cursor];
      log := log + [Extract(url, cursor)];
      ghost var start := players.items;
      var i := 0;
      while i < |rows|
        invariant i <= |rows|
        invariant forall j :: 0 <= j < i ==> WellFormed(rows[j])
        invariant players.items == start + Records(rows[..i])
        invariant log == old(log) + [Extract(url, cursor)]
      {
        match ToPlayer(rows[i]) {
          case Err(e) =>
            assert FirstBad(rows) == i;
            return Some(e);
          case Ok(p) =>
            RecordsStep(rows, i);
            AppendAssoc(start, Records(rows[..i]), [p]);
            players.Append(p);
        }
        i := i + 1;
      }
      assert FirstBad(rows) == |rows|;
      assert rows[..i] == rows;
      failure := None;
    }

    /** The page loop of one letter: extracts the page shown, stops after the
        last page and otherwise moves to the next one. A row without a record
        stops the walk with its error; the records before it stay appended. */
    method WalkPages() returns (failure: Option<ScrapeError>)
      requires OnListing() && cursor == 0
      modifies players, this`cursor, this`log
      ensures var rows := Flatten(pages); var k := FirstBad(rows);
        players.items == old(players.items) + Records(rows[..k]) &&
        failure == (if k == |rows| then None else Some(ToPlayer(rows[k]).error))
      ensures log == old(log) + ExtractLog(url, Walked(pages))
    {
      while true
        invariant OnListing()
        invariant FirstBad(Flatten(pages[..cursor])) == |Flatten(pages[..cursor])|
        invariant players.items == old(players.items) + Records(Flatten(pages[..cursor]))
        invariant log == old(log) + ExtractLog(url, cursor)
        decreases |pages| - cursor
      {
        ghost var before := Flatten(pages[..cursor]);
        ghost var page := pages[cursor];
        failure := GetPlayerData();
        AppendAssoc(old(players.items), Records(before), Records(page[..FirstBad(page)]));
        AppendAssoc(old(log), ExtractLog(url, cursor), [Extract(url, cursor)]);
        assert log == old(log) + ExtractLog(url, cursor + 1);
        if failure.Some? {
          ListingStopsAtPage(pages, cursor);
          return;
        }
        PageCompleted(pages, cursor);
        var last := IsLastPage();
        if last {
          return;
        }
        GoToNextPage();
      }
    }

    /** The letter loop: opens each letter's listing in turn and walks its
        pages. A letter whose URL is not served, or a row without a record,
        stops the loop with that error; the records before it stay appended. */
    method VisitLetters(letters: seq<char>) returns (failure: Option<ScrapeError>)
      modifies this, players
      ensures players.items == old(players.items) + Collected(site, letters)
      ensures failure == Failure(site, letters)
      ensures failure.None? <==> StopLetter(site, letters) == |letters|
      ensures log == old(log) + RunLog(site, letters)
    {
      // The rows read so far; all of them have yielded a record.
      ghost var read: seq<Row> := [];
      ghost var items0, log0 := players.items, log;
      assert letters[..0] == [];
      for i := 0 to |letters|
        invariant i <= FirstUnserved(site, letters)
        invariant read == SiteRows(site, letters[..i])
        invariant FirstBad(read) == |read|
        invariant players.items == items0 + Records(read)
        invariant log == log0 + LettersLog(site, letters[..i])
      {
        var u := Url(letters[i]);
        LetterLogAppend(site, letters, i, log0);
        var ok := OpenUrl(u);
        if !ok {
          assert i == FirstUnserved(site, letters);
          assert read == ReadRows(site, letters);
          StopsAtUnservedLetter(site, letters);
          RunLogStops(site, letters, i);
          return Some(NavigationFailed(u));
        }
        assert i < FirstUnserved(site, letters);
        ghost var rows := Flatten(site[u]);
        failure := WalkPages();
        AppendAssoc(items0, Records(read), Records(rows[..FirstBad(rows)]));
        if failure.Some? {
          StopsInListing(site, letters, i);
          RunLogStops(site, letters, i);
          return;
        }
        LetterCompleted(site, letters, i);
        read := read + rows;
      }
      assert letters[..|letters|] == letters;
      CollectsEveryRow(site, letters);
      GoodLettersBefore(site, letters, |letters|);
      failure := None;
    }

    /** Walks every letter's listing page by page, appending every row's record
        to the shared list, and returns that list. The first failure ends the
        walk with its error; the records appended before it stay in the list. */
    method GetPlayers() returns (result: Result<seq<Player>>)
      modifies this, players
      ensures players.items == old(players.items) + Collected(site, Alphabet())
      ensures result.Ok? <==> Failure(site, Alphabet()).None?
      ensures result.Ok? <==> StopLetter(site, Alphabet()) == 26
      ensures result.Ok? ==> result.value == players.items
      ensures result.Err? ==> Failure(site, Alphabet()) == Some(result.error)
      ensures log == old(log) + RunLog(site, Alphabet())
      ensures result.Ok? ==> log == old(log) + LettersLog(site, Alphabet())
    {
      var alphabet := Alphabet();
      var failure := VisitLetters(alphabet);
      if failure.Some? {
        return Err(failure.value);
      }
      RunLogComplete(site, alphabet);
      return Ok(players.items);
    }
  }

  /** Two scrapers share `_players`: a second run, even by a new scraper,
      returns the first run's records followed by the same records again.
      Each result is the list's contents at the moment its run returns. In
      Python both runs return the same list object, so after the second run
      the first result shows the doubled list too; that aliasing is not
      modelled (see `GetPlayers`). */
  method ScrapeTwice(site: Site) returns (first: Result<seq<Player>>, second: Result<seq<Player>>)
    ensures first.Ok? <==> Failure(site, Alphabet()).None?
    ensures first.Ok? ==> first.value == Collected(site, Alphabet())
    ensures first.Ok? ==> second.Ok? && second.value == first.value + first.value
  {
    var shared := new PlayerList();
    var one := new Scraper(shared, site);
    first := one.GetPlayers();
    var two := new Scraper(shared, site);
    second := two.GetPlayers();
  }
}
