/**
 * What a whole scrape collects, stated on values. The site serves a listing
 * of one or more pages at each letter's URL. A scrape visits the letters in
 * order and, within a letter, the pages in order, appending one record per
 * row. It stops at the first failure: a letter whose URL is not served, or
 * a row that yields no record. The records appended before that failure
 * stay appended.
 *
 * So the records of a scrape are the records of the rows it reads, cut at
 * the first bad row. Those rows are every row of every page of the letters
 * before the first unserved one.
 */
module Collection {
  import opened Roster

  /** What a scraper visibly does: open a listing URL, or extract one page of it. */
  datatype Event = Open(url: string) | Extract(url: string, page: nat)

  /** The pages a listing URL serves; there is always a first page. */
  type Listing = pages: seq<Page> | |pages| >= 1 witness [[]]

  /** The site as the scraper sees it: the listing behind each URL it serves. */
  type Site = map<string, Listing>

  /** The rows of a sequence of pages, page after page. */
  function Flatten(pages: seq<Page>): seq<Row>
    decreases |pages|
  {
    if pages == [] then []
    else Flatten(pages[..|pages| - 1]) + pages[|pages| - 1]
  }

  /** The index of the first letter at or after `from` whose URL the site does
      not serve, or `|letters|`. */
  function FirstUnservedFrom(site: Site, letters: seq<char>, from: nat): (j: nat)
    requires from <= |letters|
    ensures from <= j <= |letters|
    ensures forall i :: from <= i < j ==> Url(letters[i]) in site
    ensures j < |letters| ==> Url(letters[j]) !in site
    decreases |letters| - from
  {
    if from == |letters| || Url(letters[from]) !in site then from
    else FirstUnservedFrom(site, letters, from + 1)
  }

  /** The index of the first letter whose URL the site does not serve, or `|letters|`. */
  function FirstUnserved(site: Site, letters: seq<char>): (j: nat)
    ensures j <= |letters|
    ensures forall i :: 0 <= i < j ==> Url(letters[i]) in site
    ensures j < |letters| ==> Url(letters[j]) !in site
  {
    FirstUnservedFrom(site, letters, 0)
  }

  /** Every row of every page of the given letters' listings, letter after letter. */
  function SiteRows(site: Site, letters: seq<char>): seq<Row>
    requires forall i :: 0 <= i < |letters| ==> Url(letters[i]) in site
    decreases |letters|
  {
    if letters == [] then []
    else SiteRows(site, letters[..|letters| - 1]) + Flatten(site[Url(letters[|letters| - 1])])
  }

  /** The rows a scrape of `letters` reads unless a bad row stops it first. */
  function ReadRows(site: Site, letters: seq<char>): seq<Row>
  {
    SiteRows(site, letters[..FirstUnserved(site, letters)])
  }

  /** The records a scrape of `letters` appends: those of the rows read, up to the first bad one. */
  function Collected(site: Site, letters: seq<char>): seq<Player>
  {
    var rows := ReadRows(site, letters);
    Records(rows[..FirstBad(rows)])
  }

  /** What stops a scrape of `letters`: the first bad row read, or else the first
      letter whose URL is not served; nothing when neither exists. */
  function Failure(site: Site, letters: seq<char>): Option<ScrapeError>
  {
    var j := FirstUnserved(site, letters);
    var rows := ReadRows(site, letters);
    var k := FirstBad(rows);
    if k < |rows| then Some(ToPlayer(rows[k]).error)
    else if j < |letters| then Some(NavigationFailed(Url(letters[j])))
    else None
  }

  /** The extraction of pages `0` to `n - 1` of a listing, in that order. */
  function ExtractLog(url: string, n: nat): (log: seq<Event>)
    ensures |log| == n && forall i :: 0 <= i < n ==> log[i] == Extract(url, i)
    decreases n
  {
    if n == 0 then [] else ExtractLog(url, n - 1) + [Extract(url, n - 1)]
  }

  /** The index of the first page at or after `from` that holds a row
      yielding no record, or `|pages|`. */
  function FirstBadPageFrom(pages: seq<Page>, from: nat): (c: nat)
    requires from <= |pages|
    ensures from <= c <= |pages|
    ensures forall i :: from <= i < c ==> FirstBad(pages[i]) == |pages[i]|
    ensures c < |pages| ==> FirstBad(pages[c]) < |pages[c]|
    decreases |pages| - from
  {
    if from == |pages| || FirstBad(pages[from]) < |pages[from]| then from
    else FirstBadPageFrom(pages, from + 1)
  }

  /** The index of the first page that holds a row yielding no record, or `|pages|`. */
  function FirstBadPage(pages: seq<Page>): (c: nat)
    ensures c <= |pages|
    ensures forall i :: 0 <= i < c ==> FirstBad(pages[i]) == |pages[i]|
    ensures c < |pages| ==> FirstBad(pages[c]) < |pages[c]|
  {
    FirstBadPageFrom(pages, 0)
  }

  /** How many pages of a listing the page loop extracts: it goes on while the
      pages hold only good rows and are not the last, so it stops at the first
      page with a bad row, or else at the last page. */
  function Walked(pages: Listing): (n: nat)
    ensures 1 <= n <= |pages|
    ensures n < |pages| ==> FirstBad(pages[n - 1]) < |pages[n - 1]|
  {
    var c := FirstBadPage(pages);
    if c < |pages| then c + 1 else |pages|
  }

  /** The events of visiting one letter: its URL is opened and, when the site
      serves it, the pages the page loop walks are extracted, first to last. */
  function LetterLog(site: Site, letter: char): seq<Event>
  {
    var url := Url(letter);
    [Open(url)] + (if url in site then ExtractLog(url, Walked(site[url])) else [])
  }

  /** The events of visiting `letters` one after the other, each as `LetterLog`. */
  function LettersLog(site: Site, letters: seq<char>): seq<Event>
    decreases |letters|
  {
    if letters == [] then []
    else LettersLog(site, letters[..|letters| - 1]) + LetterLog(site, letters[|letters| - 1])
  }

  /** A letter ends the scrape when its URL is not served or its listing
      holds a row that yields no record. */
  predicate LetterStops(site: Site, letter: char)
  {
    var url := Url(letter);
    url !in site || FirstBad(Flatten(site[url])) < |Flatten(site[url])|
  }

  /** The index of the first letter at or after `from` that ends the scrape, or `|letters|`. */
  function StopLetterFrom(site: Site, letters: seq<char>, from: nat): (j: nat)
    requires from <= |letters|
    ensures from <= j <= |letters|
    ensures forall i :: from <= i < j ==> !LetterStops(site, letters[i])
    ensures j < |letters| ==> LetterStops(site, letters[j])
    decreases |letters| - from
  {
    if from == |letters| || LetterStops(site, letters[from]) then from
    else StopLetterFrom(site, letters, from + 1)
  }

  /** The index of the first letter that ends the scrape, or `|letters|`. */
  function StopLetter(site: Site, letters: seq<char>): (j: nat)
    ensures j <= |letters|
    ensures forall i :: 0 <= i < j ==> !LetterStops(site, letters[i])
    ensures j < |letters| ==> LetterStops(site, letters[j])
  {
    StopLetterFrom(site, letters, 0)
  }

  /** The events of a scrape of `letters`: every letter up to and including the
      one that ends it, or all of them when none does. */
  function RunLog(site: Site, letters: seq<char>): seq<Event>
  {
    var j := StopLetter(site, letters);
    LettersLog(site, letters[..if j < |letters| then j + 1 else j])
  }

  /** The URLs opened, in the order they were opened. */
  function Opens(log: seq<Event>): seq<string>
    decreases |log|
  {
    if log == [] then []
    else Opens(log[..|log| - 1]) + (if log[|log| - 1].Open? then [log[|log| - 1].url] else [])
  }

  // ---------------------------------------------------------------------------
  // Growing prefixes, one step at a time.

  /** Concatenation regroups; stated once so that loop proofs can name the
      grouping they need instead of searching for it. */
  lemma AppendAssoc<T>(a: seq<T>, b: seq<T>, c: seq<T>)
    ensures a + b + c == a + (b + c)
  {
  }

  lemma FlattenStep(pages: seq<Page>, c: nat)
    requires c < |pages|
    ensures Flatten(pages[..c + 1]) == Flatten(pages[..c]) + pages[c]
  {
    assert pages[..c + 1][..c] == pages[..c];
  }

  lemma SiteRowsStep(site: Site, letters: seq<char>, i: nat)
    requires i < |letters| && forall j :: 0 <= j <= i ==> Url(letters[j]) in site
    ensures SiteRows(site, letters[..i + 1]) == SiteRows(site, letters[..i]) + Flatten(site[Url(letters[i])])
  {
    assert letters[..i + 1][..i] == letters[..i];
  }

  lemma LettersLogStep(site: Site, letters: seq<char>, i: nat)
    requires i < |letters|
    ensures LettersLog(site, letters[..i + 1]) == LettersLog(site, letters[..i]) + LetterLog(site, letters[i])
  {
    assert letters[..i + 1][..i] == letters[..i];
  }

  /** The events logged while visiting the `i`-th letter extend those of the
      letters before it to those of the letters up to and including it. */
  lemma LetterLogAppend(site: Site, letters: seq<char>, i: nat, before: seq<Event>)
    requires i < |letters|
    ensures var u := Url(letters[i]); u !in site ==>
      before + LettersLog(site, letters[..i]) + [Open(u)] == before + LettersLog(site, letters[..i + 1])
    ensures var u := Url(letters[i]); u in site ==>
      before + LettersLog(site, letters[..i]) + [Open(u)] + ExtractLog(u, Walked(site[u]))
        == before + LettersLog(site, letters[..i + 1])
  {
    var u := Url(letters[i]);
    LettersLogStep(site, letters, i);
    if u in site {
      AppendAssoc(before + LettersLog(site, letters[..i]), [Open(u)], ExtractLog(u, Walked(site[u])));
      AppendAssoc(before, LettersLog(site, letters[..i]), [Open(u)] + ExtractLog(u, Walked(site[u])));
    } else {
      AppendAssoc(before, LettersLog(site, letters[..i]), [Open(u)]);
    }
  }

  /** The rows of the first pages of a listing come first among its rows. */
  lemma {:induction false} FlattenPrefix(pages: seq<Page>, c: nat)
    requires c <= |pages|
    ensures Flatten(pages[..c]) <= Flatten(pages)
    decreases |pages|
  {
    if c == |pages| {
      assert pages[..c] == pages;
    } else {
      var init := pages[..|pages| - 1];
      FlattenPrefix(init, c);
      assert init[..c] == pages[..c];
    }
  }

  /** The rows of the first letters come first among the rows of more letters. */
  lemma {:induction false} SiteRowsPrefix(site: Site, letters: seq<char>, i: nat)
    requires i <= |letters| && forall j :: 0 <= j < |letters| ==> Url(letters[j]) in site
    ensures SiteRows(site, letters[..i]) <= SiteRows(site, letters)
    decreases |letters|
  {
    if i == |letters| {
      assert letters[..i] == letters;
    } else {
      var init := letters[..|letters| - 1];
      SiteRowsPrefix(site, init, i);
      assert init[..i] == letters[..i];
    }
  }

  // ---------------------------------------------------------------------------
  // How a scrape ends: the three cases the scraper's loops meet.

  /** Pages whose rows all yield records come before the first bad page. */
  lemma {:induction false} GoodPagesBefore(pages: seq<Page>, c: nat)
    requires c <= |pages|
    requires FirstBad(Flatten(pages[..c])) == |Flatten(pages[..c])|
    ensures c <= FirstBadPage(pages)
  {
    if c > 0 {
      FlattenStep(pages, c - 1);
      GoodRowsSplit(Flatten(pages[..c - 1]), pages[c - 1]);
      GoodPagesBefore(pages, c - 1);
    }
  }

  /** A bad row on page `c` of a listing, after only good rows, is the first
      bad row of the listing, and page `c` is the last one the page loop walks. */
  lemma ListingStopsAtPage(pages: seq<Page>, c: nat)
    requires c < |pages|
    requires FirstBad(Flatten(pages[..c])) == |Flatten(pages[..c])|
    requires FirstBad(pages[c]) < |pages[c]|
    ensures Walked(pages) == c + 1
    ensures var rows := Flatten(pages); var page := pages[c];
      FirstBad(rows) < |rows| &&
      rows[..FirstBad(rows)] == Flatten(pages[..c]) + page[..FirstBad(page)] &&
      Records(rows[..FirstBad(rows)]) == Records(Flatten(pages[..c])) + Records(page[..FirstBad(page)]) &&
      rows[FirstBad(rows)] == page[FirstBad(page)]
  {
    GoodPagesBefore(pages, c);
    FlattenStep(pages, c);
    FlattenPrefix(pages, c + 1);
    FirstBadWithin(Flatten(pages), Flatten(pages[..c]), pages[c]);
    RecordsAppend(Flatten(pages[..c]), pages[c][..FirstBad(pages[c])]);
  }

  /** A page whose rows all yield records, after only good rows, extends the
      rows read and the records collected by its own. */
  lemma PageCompleted(pages: seq<Page>, c: nat)
    requires c < |pages|
    requires FirstBad(Flatten(pages[..c])) == |Flatten(pages[..c])|
    requires FirstBad(pages[c]) == |pages[c]|
    ensures c + 1 == |pages| ==> Walked(pages) == |pages|
    ensures var done := Flatten(pages[..c + 1]);
      FirstBad(done) == |done| &&
      Records(done) == Records(Flatten(pages[..c])) + Records(pages[c][..FirstBad(pages[c])]) &&
      (c + 1 == |pages| ==> var rows := Flatten(pages); done == rows && rows[..FirstBad(rows)] == rows)
  {
    FlattenStep(pages, c);
    GoodRowsAppend(Flatten(pages[..c]), pages[c]);
    assert pages[c][..|pages[c]|] == pages[c];
    if c + 1 == |pages| {
      GoodPagesBefore(pages, c + 1);
      assert pages[..c + 1] == pages;
      assert Flatten(pages)[..|Flatten(pages)|] == Flatten(pages);
    }
  }

  /** A bad row in the listing of the `i`-th letter, after only good rows,
      ends the scrape: the records are those read before it, and its error is
      the scrape's. */
  lemma StopsInListing(site: Site, letters: seq<char>, i: nat)
    requires i < FirstUnserved(site, letters)
    requires FirstBad(SiteRows(site, letters[..i])) == |SiteRows(site, letters[..i])|
    requires FirstBad(Flatten(site[Url(letters[i])])) < |Flatten(site[Url(letters[i])])|
    ensures var rows := Flatten(site[Url(letters[i])]);
      Collected(site, letters) == Records(SiteRows(site, letters[..i])) + Records(rows[..FirstBad(rows)]) &&
      Failure(site, letters) == Some(ToPlayer(rows[FirstBad(rows)]).error)
  {
    var ls := letters[..FirstUnserved(site, letters)];
    var done := SiteRows(site, letters[..i]);
    var rows := Flatten(site[Url(letters[i])]);
    var read := ReadRows(site, letters);
    assert ls[..i] == letters[..i] && ls[i] == letters[i];
    SiteRowsStep(site, ls, i);
    SiteRowsPrefix(site, ls, i + 1);
    FirstBadWithin(read, done, rows);
    RecordsAppend(done, rows[..FirstBad(rows)]);
  }

  /** A served letter whose listing holds only good rows, after only good
      rows, extends the rows read and the records collected by its own. */
  lemma LetterCompleted(site: Site, letters: seq<char>, i: nat)
    requires i < FirstUnserved(site, letters)
    requires FirstBad(SiteRows(site, letters[..i])) == |SiteRows(site, letters[..i])|
    requires FirstBad(Flatten(site[Url(letters[i])])) == |Flatten(site[Url(letters[i])])|
    ensures var done := SiteRows(site, letters[..i]); var rows := Flatten(site[Url(letters[i])]);
      SiteRows(site, letters[..i + 1]) == done + rows &&
      FirstBad(done + rows) == |done + rows| &&
      Records(done + rows) == Records(done) + Records(rows[..FirstBad(rows)])
  {
    SiteRowsStep(site, letters, i);
    var rows := Flatten(site[Url(letters[i])]);
    GoodRowsAppend(SiteRows(site, letters[..i]), rows);
    assert rows[..|rows|] == rows;
  }

  /** A letter whose URL is not served, after only good rows, ends the scrape
      with the records of all rows read. */
  lemma StopsAtUnservedLetter(site: Site, letters: seq<char>)
    requires FirstUnserved(site, letters) < |letters|
    requires FirstBad(ReadRows(site, letters)) == |ReadRows(site, letters)|
    ensures Collected(site, letters) == Records(ReadRows(site, letters))
    ensures Failure(site, letters) == Some(NavigationFailed(Url(letters[FirstUnserved(site, letters)])))
  {
    var rows := ReadRows(site, letters);
    assert rows[..|rows|] == rows;
  }

  /** When every URL is served and every row is good, the scrape succeeds with
      one record per row of every page of every letter, in order. */
  lemma CollectsEveryRow(site: Site, letters: seq<char>)
    requires forall i :: 0 <= i < |letters| ==> Url(letters[i]) in site
    requires FirstBad(SiteRows(site, letters)) == |SiteRows(site, letters)|
    ensures Failure(site, letters).None?
    ensures Collected(site, letters) == Records(SiteRows(site, letters))
  {
    assert FirstUnserved(site, letters) == |letters|;
    assert letters[..|letters|] == letters;
    var rows := SiteRows(site, letters);
    assert rows[..|rows|] == rows;
  }

  /** The whole alphabet: the scrape is exactly one record per row, when nothing fails. */
  lemma ScrapeCollectsEveryRow(site: Site)
    requires forall c :: 'a' <= c <= 'z' ==> Url(c) in site
    requires forall r :: r in SiteRows(site, Alphabet()) ==> WellFormed(r)
    ensures var rows := SiteRows(site, Alphabet());
      Failure(site, Alphabet()).None? &&
      |Collected(site, Alphabet())| == |rows| &&
      (forall i :: 0 <= i < |rows| ==> Collected(site, Alphabet())[i] == ToPlayer(rows[i]).value)
  {
    var rows := SiteRows(site, Alphabet());
    assert FirstBad(rows) == |rows|;
    assert Alphabet()[..26] == Alphabet();
    CollectsEveryRow(site, Alphabet());
  }

  // ---------------------------------------------------------------------------
  // The order of visits.

  lemma {:induction false} OpensAppend(a: seq<Event>, b: seq<Event>)
    ensures Opens(a + b) == Opens(a) + Opens(b)
    decreases |b|
  {
    if b == [] {
      assert a + b == a;
    } else {
      var b' := b[..|b| - 1];
      OpensAppend(a, b');
      assert (a + b)[..|a + b| - 1] == a + b';
      assert (a + b)[|a + b| - 1] == b[|b| - 1];
    }
  }

  lemma {:induction false} OpensOfExtracts(url: string, n: nat)
    ensures Opens(ExtractLog(url, n)) == []
    decreases n
  {
    if n > 0 {
      assert ExtractLog(url, n)[..n - 1] == ExtractLog(url, n - 1);
      OpensOfExtracts(url, n - 1);
    }
  }

  /** One letter's events open its URL once and nothing else. */
  lemma OpensOfLetter(site: Site, front: seq<Event>, letter: char)
    ensures Opens(front + LetterLog(site, letter)) == Opens(front) + [Url(letter)]
  {
    var url := Url(letter);
    var pagesLog := if url in site then ExtractLog(url, Walked(site[url])) else [];
    assert LetterLog(site, letter) == [Open(url)] + pagesLog;
    assert front + LetterLog(site, letter) == front + [Open(url)] + pagesLog;
    OpensAppend(front, [Open(url)]);
    OpensAppend(front + [Open(url)], pagesLog);
    if url in site {
      OpensOfExtracts(url, Walked(site[url]));
    }
    assert Opens([Open(url)]) == [url] by {
      assert [Open(url)][..0] == [];
    }
  }

  /** Visiting letters opens their URLs, one per letter, in letter order. */
  lemma {:induction false} LettersLogOpens(site: Site, letters: seq<char>)
    ensures |Opens(LettersLog(site, letters))| == |letters|
    ensures forall i :: 0 <= i < |letters| ==> Opens(LettersLog(site, letters))[i] == Url(letters[i])
    decreases |letters|
  {
    if letters != [] {
      var n := |letters|;
      var init := letters[..n - 1];
      LettersLogOpens(site, init);
      OpensOfLetter(site, LettersLog(site, init), letters[n - 1]);
      var urls := Opens(LettersLog(site, letters));
      assert urls == Opens(LettersLog(site, init)) + [Url(letters[n - 1])];
      forall i | 0 <= i < n ensures urls[i] == Url(letters[i]) {
        if i < n - 1 {
          assert init[i] == letters[i];
        }
      }
    }
  }

  /** A scrape opens the URLs of its letters in order, up to and including the
      letter that ends it, or all of them when none does. */
  lemma RunLogOpens(site: Site, letters: seq<char>)
    ensures var urls := Opens(RunLog(site, letters)); var j := StopLetter(site, letters);
      |urls| == (if j < |letters| then j + 1 else |letters|) &&
      forall i :: 0 <= i < |urls| ==> urls[i] == Url(letters[i])
  {
    var j := StopLetter(site, letters);
    var visited := letters[..if j < |letters| then j + 1 else j];
    LettersLogOpens(site, visited);
    assert forall i :: 0 <= i < |visited| ==> visited[i] == letters[i];
  }

  /** A scrape of the alphabet opens the letters' URLs in alphabet order, none
      twice, up to and including the letter that ends it, or all 26 when none does. */
  lemma AlphabetOpenedOnceEach(site: Site)
    ensures var urls := Opens(RunLog(site, Alphabet())); var j := StopLetter(site, Alphabet());
      |urls| == (if j < 26 then j + 1 else 26) &&
      (forall i :: 0 <= i < |urls| ==> urls[i] == Url(Alphabet()[i])) &&
      (forall i, k :: 0 <= i < k < |urls| ==> urls[i] != urls[k])
  {
    var urls := Opens(RunLog(site, Alphabet()));
    RunLogOpens(site, Alphabet());
    AlphabetOrderedAndComplete();
    forall i, k | 0 <= i < k < |urls| ensures urls[i] != urls[k] {
      assert Alphabet()[i] != Alphabet()[k];
      assert Url(Alphabet()[i])[|UrlPrefix|] != Url(Alphabet()[k])[|UrlPrefix|];
    }
  }

  /** The events of the first letters come first among the events of more letters. */
  lemma {:induction false} LettersLogPrefix(site: Site, letters: seq<char>, n: nat)
    requires n <= |letters|
    ensures LettersLog(site, letters[..n]) <= LettersLog(site, letters)
    decreases |letters|
  {
    if n == |letters| {
      assert letters[..n] == letters;
    } else {
      var init := letters[..|letters| - 1];
      LettersLogPrefix(site, init, n);
      assert init[..n] == letters[..n];
    }
  }

  /** The events of a scrape are a prefix of the events of visiting every letter. */
  lemma RunLogIsPrefix(site: Site, letters: seq<char>)
    ensures RunLog(site, letters) <= LettersLog(site, letters)
  {
    var j := StopLetter(site, letters);
    LettersLogPrefix(site, letters, if j < |letters| then j + 1 else j);
  }

  /** A scrape that no letter ends visits every letter. */
  lemma RunLogComplete(site: Site, letters: seq<char>)
    requires StopLetter(site, letters) == |letters|
    ensures RunLog(site, letters) == LettersLog(site, letters)
  {
    assert letters[..|letters|] == letters;
  }

  /** A letter that ends the scrape, after letters that do not: the scrape's
      events are those of the letters before it and then its own. */
  lemma RunLogStops(site: Site, letters: seq<char>, i: nat)
    requires i <= FirstUnserved(site, letters) && i < |letters|
    requires FirstBad(SiteRows(site, letters[..i])) == |SiteRows(site, letters[..i])|
    requires LetterStops(site, letters[i])
    ensures StopLetter(site, letters) == i
    ensures RunLog(site, letters) == LettersLog(site, letters[..i + 1])
  {
    GoodLettersBefore(site, letters, i);
  }

  /** Letters whose listings are served and hold only good rows come before
      the letter that ends the scrape. */
  lemma {:induction false} GoodLettersBefore(site: Site, letters: seq<char>, i: nat)
    requires i <= FirstUnserved(site, letters)
    requires FirstBad(SiteRows(site, letters[..i])) == |SiteRows(site, letters[..i])|
    ensures i <= StopLetter(site, letters)
  {
    if i > 0 {
      SiteRowsStep(site, letters, i - 1);
      GoodRowsSplit(SiteRows(site, letters[..i - 1]), Flatten(site[Url(letters[i - 1])]));
      GoodLettersBefore(site, letters, i - 1);
    }
  }

  /** A letter served with two pages, two rows then one, contributes those
      three rows in page order. */
  lemma TwoPageLetterRows(site: Site, r1: Row, r2: Row, r3: Row)
    requires Url('a') in site && site[Url('a')] == [[r1, r2], [r3]]
    ensures SiteRows(site, "a") == [r1, r2, r3]
  {
    var pages := site[Url('a')];
    assert Flatten(pages) == [r1, r2, r3] by {
      assert pages[..1] == [[r1, r2]];
      assert Flatten(pages[..1]) == [r1, r2];
    }
    assert "a"[..0] == [];
  }

  /** With two pages of good rows served for 'a', both are extracted, in order,
      before 'b' is opened. */
  lemma TwoPageLetterLog(site: Site)
    requires Url('a') in site && |site[Url('a')]| == 2
    requires forall c :: 0 <= c < 2 ==> FirstBad(site[Url('a')][c]) == |site[Url('a')][c]|
    ensures LettersLog(site, "ab")[..4] ==
      [Open(Url('a')), Extract(Url('a'), 0), Extract(Url('a'), 1), Open(Url('b'))]
  {
    var a := Url('a');
    assert Walked(site[a]) == 2;
    assert LettersLog(site, "a") == [Open(a)] + ExtractLog(a, 2) by {
      assert "a"[..0] == [];
    }
    assert LettersLog(site, "ab") == LettersLog(site, "a") + LetterLog(site, 'b') by {
      assert "ab"[..1] == "a";
    }
  }

  /** The scrape itself, not only a visit of both letters: with two pages of
      good rows served for 'a', it extracts both, in order, and then opens 'b'. */
  lemma TwoPageLetterRun(site: Site)
    requires Url('a') in site && |site[Url('a')]| == 2
    requires forall c :: 0 <= c < 2 ==> FirstBad(site[Url('a')][c]) == |site[Url('a')][c]|
    ensures |RunLog(site, "ab")| >= 4
    ensures RunLog(site, "ab")[..4] ==
      [Open(Url('a')), Extract(Url('a'), 0), Extract(Url('a'), 1), Open(Url('b'))]
  {
    var pages := site[Url('a')];
    assert !LetterStops(site, 'a') by {
      assert pages[..0] == [];
      PageCompleted(pages, 0);
      PageCompleted(pages, 1);
    }
    assert StopLetter(site, "ab") >= 1;
    assert RunLog(site, "ab") == LettersLog(site, "ab") by {
      assert "ab"[..2] == "ab";
    }
    TwoPageLetterLog(site);
  }

  /** A bad row on the first of two pages for 'a' ends the scrape there: the
      second page is never extracted and 'b' is never opened. */
  lemma TwoPageLetterStopsEarly(site: Site)
    requires Url('a') in site && |site[Url('a')]| == 2
    requires FirstBad(site[Url('a')][0]) < |site[Url('a')][0]|
    ensures RunLog(site, "ab") == [Open(Url('a')), Extract(Url('a'), 0)]
  {
    var pages := site[Url('a')];
    assert LetterStops(site, 'a') by {
      FlattenPrefix(pages, 1);
      assert Flatten(pages[..1]) == pages[0] by {
        assert pages[..1][..0] == [];
      }
      FirstBadOfPrefix(Flatten(pages), pages[0]);
    }
    assert StopLetter(site, "ab") == 0;
    assert Walked(pages) == 1;
    assert RunLog(site, "ab") == LettersLog(site, "a") by {
      assert "ab"[..1] == "a";
    }
    assert "a"[..0] == [];
  }
}
