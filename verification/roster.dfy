/**
 * The roster's data: player records, the table rows they are read from,
 * the letters that partition the listing and the URL of each letter's listing.
 */
module Roster {
  import opened TeamName

  datatype Option<T> = None | Some(value: T)

  /** One roster entry, as built by `Player(name, team, pos, status)`. */
  datatype Player = Player(name: string, team: string, position: string, status: string)

  /** A table row as the page shows it: the text of the full-name element, if the
      row has one, and the texts of its `td` cells in document order. */
  datatype Row = Row(name: Option<string>, cells: seq<string>)

  /** One page of a letter's listing: its table rows in document order. */
  type Page = seq<Row>

  /** Why a run stops: the letter's URL is not served, a row has no name
      element, or a row has too few cells for team, position and status. */
  datatype ScrapeError = NavigationFailed(url: string) | NameMissing | TooFewCells(found: nat)

  datatype Result<T> = Ok(value: T) | Err(error: ScrapeError)

  /** The letters the listing is split by, as `list("abcdefghijklmnopqrstuvwxyz")`. */
  function Alphabet(): (letters: seq<char>)
    ensures |letters| == 26
    ensures forall i :: 0 <= i < |letters| ==> letters[i] as int == 'a' as int + i
  {
    "abcdefghijklmnopqrstuvwxyz"
  }

  /** The alphabet is in strictly increasing order, so no letter repeats,
      and it holds every lower-case letter and nothing else. */
  lemma AlphabetOrderedAndComplete()
    ensures forall i, j :: 0 <= i < j < 26 ==> Alphabet()[i] < Alphabet()[j]
    ensures forall c: char :: 'a' <= c <= 'z' <==> c in Alphabet()
  {
    var letters := Alphabet();
    forall c: char | 'a' <= c <= 'z' ensures c in letters {
      assert letters[c as int - 'a' as int] == c;
    }
  }

  const UrlPrefix := "https://www.nfl.com/players/active/"

  /** The address of one letter's listing. */
  function Url(letter: char): (u: string)
    ensures |u| == |UrlPrefix| + 1
    ensures u[..|UrlPrefix|] == UrlPrefix && u[|UrlPrefix|..] == [letter]
  {
    UrlPrefix + [letter]
  }

  /** Different letters have different listing URLs. */
  lemma UrlInjective(a: char, b: char)
    requires Url(a) == Url(b)
    ensures a == b
  {
    assert Url(a)[|UrlPrefix|] == a;
  }

  /** Cells 1, 2 and 3 of a row hold team, position and status; cell 0 is unused.
      Indexing a cell the row does not have fails. */
  function TeamPositionStatus(cells: seq<string>): (r: Result<(string, string, string)>)
    ensures r.Ok? <==> |cells| >= 4
    ensures r.Err? ==> r.error == TooFewCells(|cells|)
    ensures r.Ok? ==> r.value.0 == FormatTeam(cells[1]) && r.value.1 == cells[2] && r.value.2 == cells[3]
  {
    if |cells| < 4 then Err(TooFewCells(|cells|))
    else Ok((FormatTeam(cells[1]), cells[2], cells[3]))
  }

  /** A row that yields a record: it has a name element and at least four cells. */
  predicate WellFormed(row: Row)
  {
    row.name.Some? && |row.cells| >= 4
  }

  /** One row becomes one record; the name is read first, then the cells. */
  function ToPlayer(row: Row): (r: Result<Player>)
    ensures r.Ok? <==> WellFormed(row)
    ensures r.Ok? ==> r.value.name == row.name.value && r.value.team == FormatTeam(row.cells[1])
                      && r.value.position == row.cells[2] && r.value.status == row.cells[3]
    ensures r.Err? ==> r.error == if row.name.None? then NameMissing else TooFewCells(|row.cells|)
  {
    match row.name
    case None => Err(NameMissing)
    case Some(name) =>
      match TeamPositionStatus(row.cells)
      case Err(e) => Err(e)
      case Ok((team, position, status)) => Ok(Player(name, team, position, status))
  }

  /** The records of rows that all yield one: one per row, in row order. */
  function Records(rows: seq<Row>): (players: seq<Player>)
    requires forall i :: 0 <= i < |rows| ==> WellFormed(rows[i])
    ensures |players| == |rows|
    ensures forall i {:trigger players[i]} :: 0 <= i < |rows| ==> players[i] == ToPlayer(rows[i]).value
    decreases |rows|
  {
    if rows == [] then []
    else Records(rows[..|rows| - 1]) + [ToPlayer(rows[|rows| - 1]).value]
  }

  /** One more well-formed row adds its record at the end. */
  lemma RecordsStep(rows: seq<Row>, i: nat)
    requires i < |rows|
    requires forall j :: 0 <= j <= i ==> WellFormed(rows[j])
    ensures Records(rows[..i + 1]) == Records(rows[..i]) + [ToPlayer(rows[i]).value]
  {
    assert rows[..i + 1][..i] == rows[..i];
  }

  /** The records of `a + b` are those of `a` followed by those of `b`. */
  lemma RecordsAppend(a: seq<Row>, b: seq<Row>)
    requires forall i :: 0 <= i < |a| ==> WellFormed(a[i])
    requires forall i :: 0 <= i < |b| ==> WellFormed(b[i])
    ensures forall i :: 0 <= i < |a + b| ==> WellFormed((a + b)[i])
    ensures Records(a + b) == Records(a) + Records(b)
  {
    assert forall i :: 0 <= i < |a + b| ==> (a + b)[i] == if i < |a| then a[i] else b[i - |a|];
    var r, ra, rb := Records(a + b), Records(a), Records(b);
    assert |r| == |ra + rb|;
    forall i | 0 <= i < |r| ensures r[i] == (ra + rb)[i] {
      if i >= |a| {
        assert (a + b)[i] == b[i - |a|];
      }
    }
  }

  /** The index of the first row at or after `from` that yields no record, or `|rows|`. */
  function FirstBadFrom(rows: seq<Row>, from: nat): (k: nat)
    requires from <= |rows|
    ensures from <= k <= |rows|
    ensures forall i :: from <= i < k ==> WellFormed(rows[i])
    ensures k < |rows| ==> !WellFormed(rows[k])
    decreases |rows| - from
  {
    if from == |rows| || !WellFormed(rows[from]) then from
    else FirstBadFrom(rows, from + 1)
  }

  /** The index of the first row that yields no record, or `|rows|` when there is none. */
  function FirstBad(rows: seq<Row>): (k: nat)
    ensures k <= |rows|
    ensures forall i :: 0 <= i < k ==> WellFormed(rows[i])
    ensures k < |rows| ==> !WellFormed(rows[k])
  {
    FirstBadFrom(rows, 0)
  }

  /** Well-formed rows in front move the first bad row back by their number. */
  lemma FirstBadAfter(a: seq<Row>, b: seq<Row>)
    requires FirstBad(a) == |a|
    ensures FirstBad(a + b) == |a| + FirstBad(b)
  {
    assert forall i :: 0 <= i < |a| ==> (a + b)[i] == a[i];
    assert forall i :: 0 <= i < |b| ==> (a + b)[|a| + i] == b[i];
  }

  /** The front of a sequence that starts with `a + b`. */
  lemma PrefixOfConcat(rows: seq<Row>, a: seq<Row>, b: seq<Row>, n: nat)
    requires a + b <= rows && n < |b|
    ensures rows[..|a| + n] == a + b[..n] && rows[|a| + n] == b[n]
  {
    assert rows[..|a| + n] == (a + b)[..|a| + n];
    assert rows[|a| + n] == (a + b)[|a| + n];
  }

  /** Good rows `a` followed by rows `b` that hold a bad row, at the front of
      `rows`: the first bad row of `rows` is that of `b`, and the rows before
      it are `a` and the rows of `b` before its first bad one. */
  lemma FirstBadWithin(rows: seq<Row>, a: seq<Row>, b: seq<Row>)
    requires a + b <= rows
    requires FirstBad(a) == |a| && FirstBad(b) < |b|
    ensures FirstBad(rows) == |a| + FirstBad(b)
    ensures rows[..FirstBad(rows)] == a + b[..FirstBad(b)]
    ensures rows[FirstBad(rows)] == b[FirstBad(b)]
  {
    FirstBadAfter(a, b);
    FirstBadOfPrefix(rows, a + b);
    PrefixOfConcat(rows, a, b, FirstBad(b));
  }

  /** Good rows followed by more good rows are good, and their records follow
      each other. */
  lemma GoodRowsAppend(a: seq<Row>, b: seq<Row>)
    requires FirstBad(a) == |a| && FirstBad(b) == |b|
    ensures FirstBad(a + b) == |a + b|
    ensures Records(a + b) == Records(a) + Records(b)
  {
    FirstBadAfter(a, b);
    RecordsAppend(a, b);
  }

  /** Rows that all yield records are made of parts that all do. */
  lemma GoodRowsSplit(a: seq<Row>, b: seq<Row>)
    requires FirstBad(a + b) == |a + b|
    ensures FirstBad(a) == |a| && FirstBad(b) == |b|
  {
    assert forall i :: 0 <= i < |a| ==> (a + b)[i] == a[i];
    assert forall i :: 0 <= i < |b| ==> (a + b)[|a| + i] == b[i];
  }

  /** The first bad row of a prefix that has one is the first bad row of the whole. */
  lemma FirstBadOfPrefix(rows: seq<Row>, prefix: seq<Row>)
    requires prefix <= rows && FirstBad(prefix) < |prefix|
    ensures FirstBad(rows) == FirstBad(prefix)
  {
    assert forall i :: 0 <= i < |prefix| ==> rows[i] == prefix[i];
  }
}
