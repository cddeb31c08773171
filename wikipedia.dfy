/** The encyclopedia scraper: the ceremonies listing with the derived detail-page
    URL of each ceremony, and the winner and nominee records read from the
    "Winners and nominees" table of every ceremony page.

    HTTP and the HTML queries are not modelled: a page is given by a function from
    URL to what the queries on that page return. A table cell is given by the texts
    of the elements each of its five XPath queries matches, in document order; an
    element with no text of its own (lxml's `.text` is None) is `None`. */
module Wikipedia {
  import opened Wrappers
  import opened Text

  /** The extractor's two settings. Neither changes after construction; the XPath
      setting is never read, and the domain is used for the listing page only. */
  datatype WikipediaExtractor = WikipediaExtractor(ceremonyTableXpath: string, wikipediaDomain: string)

  const DefaultExtractor := WikipediaExtractor(
    "//*[@id='Ceremonies']/../following-sibling::table[1]", "https://en.wikipedia.org")

  /** The address of the ceremonies listing page. */
  function ListingUrl(e: WikipediaExtractor): string {
    e.wikipediaDomain + "/wiki/List_of_Academy_Awards_ceremonies"
  }

  /** One row of the ceremonies table: the "#" cell (an ordinal such as "96th"), the
      Date cell, and the other cells (Best Picture, viewers, rating, hosts, producers,
      venue, network) in column order. */
  datatype ListingRow = ListingRow(number: string, date: string, details: seq<string>)

  /** The listing page: the HTTP status, and the tables of the main content region,
      each already read into its rows. */
  datatype ListingPage = ListingPage(status: int, tables: seq<seq<ListingRow>>)

  /** A row of the ceremonies table with the added `url` column. */
  datatype Ceremony = Ceremony(number: string, date: string, details: seq<string>, url: string)

  /** What the five queries on one cell of the winners table return. */
  datatype Cell = Cell(
    boldItalicLinks: seq<Option<string>>,  // .//ul/li/b/i/a
    italicBoldLinks: seq<Option<string>>,  // .//ul/li/i/b/a
    categoryLinks: seq<Option<string>>,    // .//div/b/a
    categoryBolds: seq<Option<string>>,    // .//div/b
    nomineeLinks: seq<Option<string>>)     // .//ul/li/ul/li/i/a

  /** A ceremony page: the HTTP status, and the cells (`.//tbody/tr/td`) of the first
      table after the "Winners and nominees" heading, if the page has one. */
  datatype DetailPage = DetailPage(status: int, winnersTable: Option<seq<Cell>>)

  /** One nomination record; its fields are the columns
      #, Date, Category, Winner, Movie, Wikipedia_URL, in that order. */
  datatype Nomination = Nomination(
    number: string, date: string, category: string, winner: bool, movie: string, wikipediaUrl: string)

  /** httpx's raise_for_status() lets only 2xx answers through. */
  predicate IsSuccess(status: int) {
    200 <= status <= 299
  }

  const UrlPrefix := "https://en.wikipedia.org/wiki/"
  const UrlSuffix := "_Academy_Awards"

  /** The detail page of the ceremony with the given "#" cell. */
  function CeremonyUrl(number: string): string {
    UrlPrefix + number + UrlSuffix
  }

  /** The "#" cell a ceremony URL was derived from, if `url` has that shape. */
  function EditionOfUrl(url: string): Option<string> {
    if |UrlPrefix| + |UrlSuffix| <= |url| && url[..|UrlPrefix|] == UrlPrefix
       && url[|url| - |UrlSuffix|..] == UrlSuffix
    then Some(url[|UrlPrefix|..|url| - |UrlSuffix|])
    else None
  }

  /** The ceremony number can be read back from the derived URL. */
  lemma EditionOfCeremonyUrl(number: string)
    ensures EditionOfUrl(CeremonyUrl(number)) == Some(number)
  {
    var url := CeremonyUrl(number);
    assert url[..|UrlPrefix|] == UrlPrefix;
    assert url[|url| - |UrlSuffix|..] == UrlSuffix;
    assert url[|UrlPrefix|..|url| - |UrlSuffix|] == number;
  }

  function WithUrls(rows: seq<ListingRow>): seq<Ceremony> {
    seq(|rows|, i requires 0 <= i < |rows| =>
      Ceremony(rows[i].number, rows[i].date, rows[i].details, CeremonyUrl(rows[i].number)))
  }

  /** get_ceremonies: fetch the listing page, take the second table of the content
      region, and add to each of its rows the URL of its ceremony's page. */
  function GetCeremonies(e: WikipediaExtractor, listing: string -> ListingPage): (r: Result<seq<Ceremony>>)
    ensures !IsSuccess(listing(ListingUrl(e)).status) ==> r == Err(HttpStatusError)
    ensures IsSuccess(listing(ListingUrl(e)).status) && |listing(ListingUrl(e)).tables| < 2 ==> r == Err(IndexError)
    ensures r.Ok? <==> IsSuccess(listing(ListingUrl(e)).status) && |listing(ListingUrl(e)).tables| >= 2
    ensures r.Ok? ==>
      var rows := listing(ListingUrl(e)).tables[1];
      && |r.value| == |rows|
      && forall i :: 0 <= i < |rows| ==>
           && r.value[i].number == rows[i].number
           && r.value[i].date == rows[i].date
           && r.value[i].details == rows[i].details
           && r.value[i].url == "https://en.wikipedia.org/wiki/" + rows[i].number + "_Academy_Awards"
  {
    var page := listing(ListingUrl(e));
    if !IsSuccess(page.status) then Err(HttpStatusError)
    else if |page.tables| < 2 then Err(IndexError)
    else Ok(WithUrls(page.tables[1]))
  }

  /** The detail-page URLs do not depend on the configured domain: two extractors
      that see the same listing derive the same ceremonies. */
  lemma CeremoniesIgnoreDomain(e1: WikipediaExtractor, e2: WikipediaExtractor, listing: string -> ListingPage)
    requires listing(ListingUrl(e1)) == listing(ListingUrl(e2))
    ensures GetCeremonies(e1, listing) == GetCeremonies(e2, listing)
  {
  }

  /** `.text.strip()` on a matched element. */
  function StrippedText(t: Option<string>): (r: Result<string>)
    ensures r.Ok? <==> t.Some?
    ensures r.Ok? ==> r.value == Strip(t.value)
    ensures r.Err? ==> r.error == AttributeError
  {
    match t
    case None => Err(AttributeError)
    case Some(s) => Ok(Strip(s))
  }

  /** `list(map(lambda x: x.text.strip(), ts))`. */
  function StrippedTexts(ts: seq<Option<string>>): (r: Result<seq<string>>)
    ensures r.Ok? <==> forall i :: 0 <= i < |ts| ==> ts[i].Some?
    ensures r.Ok? ==> |r.value| == |ts| && forall i :: 0 <= i < |ts| ==> r.value[i] == Strip(ts[i].value)
    ensures r.Err? ==> r.error == AttributeError
    decreases |ts|
  {
    if ts == [] then Ok([])
    else
      match StrippedText(ts[0])
      case Err(e) => Err(e)
      case Ok(first) =>
        match StrippedTexts(ts[1..])
        case Err(e) => Err(e)
        case Ok(rest) => Ok([first] + rest)
  }

  /** The winner links: the bold-italic ones, or the italic-bold ones if there are none. */
  function WinnerLinks(cell: Cell): seq<Option<string>> {
    if cell.boldItalicLinks != [] then cell.boldItalicLinks else cell.italicBoldLinks
  }

  /** The category labels: the linked bold ones, or the plain bold ones if there are none. */
  function CategoryLabels(cell: Cell): seq<Option<string>> {
    if cell.categoryLinks != [] then cell.categoryLinks else cell.categoryBolds
  }

  function Record(c: Ceremony, category: string, winner: bool, movie: string): Nomination {
    Nomination(c.number, c.date, category, winner, movie, c.url)
  }

  function NomineeRecords(c: Ceremony, category: string, others: seq<string>): seq<Nomination> {
    seq(|others|, k requires 0 <= k < |others| => Record(c, category, false, others[k]))
  }

  /** The records of one category block: the winner, then the nominees in order. */
  function CategoryBlock(c: Ceremony, category: string, movie: string, others: seq<string>): (r: seq<Nomination>)
    ensures |r| == 1 + |others|
    ensures r[0] == Record(c, category, true, movie)
    ensures forall k :: 1 <= k < |r| ==> r[k] == Record(c, category, false, others[k - 1])
  {
    [Record(c, category, true, movie)] + NomineeRecords(c, category, others)
  }

  /** The records one cell of a ceremony's winners table contributes. */
  function CellRecords(c: Ceremony, cell: Cell): (r: Result<seq<Nomination>>)
    // a cell without winner markup is skipped
    ensures r == Ok([]) <==> cell.boldItalicLinks == [] && cell.italicBoldLinks == []
    ensures r.Err? ==> r.error == IndexError || r.error == AttributeError
  {
    var winners := WinnerLinks(cell);
    if winners == [] then Ok([])
    else
      var labels := CategoryLabels(cell);
      if labels == [] then Err(IndexError)
      else
        match StrippedText(labels[|labels| - 1])
        case Err(e) => Err(e)
        case Ok(category) =>
          match StrippedText(winners[0])
          case Err(e) => Err(e)
          case Ok(movie) =>
            match StrippedTexts(cell.nomineeLinks)
            case Err(e) => Err(e)
            case Ok(others) => Ok(CategoryBlock(c, category, movie, others))
  }

  /** A category cell without a label fails on `[-1]` instead of being skipped; a
      label, winner or nominee element without text fails on `.strip()`. */
  lemma CellRecordsErrors(c: Ceremony, cell: Cell)
    ensures CellRecords(c, cell) == Err(IndexError) <==>
      (cell.boldItalicLinks != [] || cell.italicBoldLinks != [])
      && cell.categoryLinks == [] && cell.categoryBolds == []
    ensures CellRecords(c, cell) == Err(AttributeError) <==>
      && WinnerLinks(cell) != [] && CategoryLabels(cell) != []
      && (CategoryLabels(cell)[|CategoryLabels(cell)| - 1].None? || WinnerLinks(cell)[0].None?
          || exists k :: 0 <= k < |cell.nomineeLinks| && cell.nomineeLinks[k].None?)
  {
  }

  /** A cell whose label, winner and nominee texts all read gives the block of
      records made from them. */
  lemma CellRecordsIsBlock(c: Ceremony, cell: Cell, category: string, movie: string, others: seq<string>)
    requires WinnerLinks(cell) != [] && CategoryLabels(cell) != []
    requires StrippedText(CategoryLabels(cell)[|CategoryLabels(cell)| - 1]) == Ok(category)
    requires StrippedText(WinnerLinks(cell)[0]) == Ok(movie)
    requires StrippedTexts(cell.nomineeLinks) == Ok(others)
    ensures CellRecords(c, cell) == Ok(CategoryBlock(c, category, movie, others))
  {
  }

  /** A cell that contributes records has a winner link, a label and readable texts,
      and its records are the block built from those texts. */
  lemma CellRecordsParts(c: Ceremony, cell: Cell) returns (category: string, movie: string, others: seq<string>)
    requires CellRecords(c, cell).Ok? && CellRecords(c, cell).value != []
    ensures WinnerLinks(cell) != [] && CategoryLabels(cell) != []
    ensures StrippedText(CategoryLabels(cell)[|CategoryLabels(cell)| - 1]) == Ok(category)
    ensures StrippedText(WinnerLinks(cell)[0]) == Ok(movie)
    ensures StrippedTexts(cell.nomineeLinks) == Ok(others)
    ensures CellRecords(c, cell) == Ok(CategoryBlock(c, category, movie, others))
  {
    var winners, labels := WinnerLinks(cell), CategoryLabels(cell);
    assert StrippedText(labels[|labels| - 1]).Ok? && StrippedText(winners[0]).Ok?;
    assert StrippedTexts(cell.nomineeLinks).Ok?;
    category := StrippedText(labels[|labels| - 1]).value;
    movie := StrippedText(winners[0]).value;
    others := StrippedTexts(cell.nomineeLinks).value;
    CellRecordsIsBlock(c, cell, category, movie, others);
  }

  /** A category cell gives one winner record, then one nominee record per nested
      link in document order. */
  lemma CellRecordsWinnerFirst(c: Ceremony, cell: Cell)
    requires CellRecords(c, cell).Ok? && CellRecords(c, cell).value != []
    ensures var rs := CellRecords(c, cell).value;
      && |rs| == 1 + |cell.nomineeLinks|
      && rs[0].winner
      && (forall k :: 1 <= k < |rs| ==> !rs[k].winner)
      && (forall k :: 1 <= k < |rs| ==> StrippedText(cell.nomineeLinks[k - 1]) == Ok(rs[k].movie))
  {
    var category, movie, others := CellRecordsParts(c, cell);
  }

  /** The winner is the first bold-italic link, or the first italic-bold link when
      there is no bold-italic one; the category is the last linked bold label, or the
      last plain bold label when there is no linked one. */
  lemma CellRecordsFallbacks(c: Ceremony, cell: Cell)
    requires CellRecords(c, cell).Ok? && CellRecords(c, cell).value != []
    ensures var rs := CellRecords(c, cell).value;
      && (cell.boldItalicLinks != [] ==> StrippedText(cell.boldItalicLinks[0]) == Ok(rs[0].movie))
      && (cell.boldItalicLinks == [] ==> StrippedText(cell.italicBoldLinks[0]) == Ok(rs[0].movie))
      && (cell.categoryLinks != [] ==>
            StrippedText(cell.categoryLinks[|cell.categoryLinks| - 1]) == Ok(rs[0].category))
      && (cell.categoryLinks == [] ==>
            StrippedText(cell.categoryBolds[|cell.categoryBolds| - 1]) == Ok(rs[0].category))
  {
    var category, movie, others := CellRecordsParts(c, cell);
    var rs := CellRecords(c, cell).value;
    assert rs[0] == Record(c, category, true, movie);
    assert rs[0].movie == movie && rs[0].category == category;
  }

  /** Every record of a cell carries the cell's one category and the #, Date and url
      of the ceremony row it came from. */
  lemma CellRecordsCopyRow(c: Ceremony, cell: Cell)
    requires CellRecords(c, cell).Ok?
    ensures var rs := CellRecords(c, cell).value;
      forall k :: 0 <= k < |rs| ==>
        && rs[k].category == rs[0].category
        && rs[k].number == c.number
        && rs[k].date == c.date
        && rs[k].wikipediaUrl == c.url
  {
    if CellRecords(c, cell).value != [] {
      var category, movie, others := CellRecordsParts(c, cell);
    }
  }

  /** Two runs one after the other: the first exception wins, else the records of
      both in order. */
  function Then(first: Result<seq<Nomination>>, second: Result<seq<Nomination>>): Result<seq<Nomination>> {
    match first
    case Err(e) => Err(e)
    case Ok(xs) =>
      match second
      case Err(e) => Err(e)
      case Ok(ys) => Ok(xs + ys)
  }

  /** The records of a ceremony's cells, concatenated in table order; the first
      failing cell's exception ends the run. */
  function CeremonyRecords(c: Ceremony, cells: seq<Cell>): (r: Result<seq<Nomination>>)
    ensures r.Err? ==> r.error == IndexError || r.error == AttributeError
    decreases |cells|
  {
    if cells == [] then Ok([])
    else Then(CeremonyRecords(c, cells[..|cells| - 1]), CellRecords(c, cells[|cells| - 1]))
  }

  /** One ceremony: a non-2xx answer raises, a page without a winners table fails
      on `[0]`, otherwise the records of its cells. */
  function PageRecords(c: Ceremony, page: DetailPage): (r: Result<seq<Nomination>>)
    ensures r == Err(HttpStatusError) <==> !IsSuccess(page.status)
    ensures r.Err? ==> r.error == HttpStatusError || r.error == IndexError || r.error == AttributeError
    ensures r.Ok? ==> IsSuccess(page.status) && page.winnersTable.Some?
  {
    if !IsSuccess(page.status) then Err(HttpStatusError)
    else if page.winnersTable.None? then Err(IndexError)
    else CeremonyRecords(c, page.winnersTable.value)
  }

  /** The records of all ceremonies, concatenated in row order. */
  function AllRecords(ceremonies: seq<Ceremony>, detail: string -> DetailPage): (r: Result<seq<Nomination>>)
    ensures r.Err? ==> r.error == HttpStatusError || r.error == IndexError || r.error == AttributeError
    decreases |ceremonies|
  {
    if ceremonies == [] then Ok([])
    else
      var c := ceremonies[|ceremonies| - 1];
      Then(AllRecords(ceremonies[..|ceremonies| - 1], detail), PageRecords(c, detail(c.url)))
  }

  /** A table reads exactly when each of its cells reads, and a failing table raises
      the exception of one of its cells. */
  lemma {:induction false} CeremonyRecordsCells(c: Ceremony, cells: seq<Cell>)
    ensures CeremonyRecords(c, cells).Ok? <==> forall j :: 0 <= j < |cells| ==> CellRecords(c, cells[j]).Ok?
    ensures CeremonyRecords(c, cells).Err? ==> exists j :: 0 <= j < |cells| && CellRecords(c, cells[j]) == CeremonyRecords(c, cells)
    decreases |cells|
  {
    if cells != [] {
      var init, last := cells[..|cells| - 1], cells[|cells| - 1];
      var r := CeremonyRecords(c, cells);
      CeremonyRecordsCells(c, init);
      if CeremonyRecords(c, init).Err? {
        assert r == CeremonyRecords(c, init);
        var j :| 0 <= j < |init| && CellRecords(c, init[j]) == r;
        assert init[j] == cells[j];
      } else if CellRecords(c, last).Err? {
        assert r == CellRecords(c, last);
      } else {
        forall j | 0 <= j < |cells|
          ensures CellRecords(c, cells[j]).Ok?
        {
          if j < |init| {
            assert init[j] == cells[j];
          } else {
            assert cells[j] == last;
          }
        }
      }
    }
  }

  /** A run reads exactly when each ceremony's page reads, and a failing run raises the
      exception of one of its pages. */
  lemma {:induction false} AllRecordsPages(ceremonies: seq<Ceremony>, detail: string -> DetailPage)
    ensures AllRecords(ceremonies, detail).Ok? <==>
      forall i :: 0 <= i < |ceremonies| ==> PageRecords(ceremonies[i], detail(ceremonies[i].url)).Ok?
    ensures AllRecords(ceremonies, detail).Err? ==>
      exists i :: 0 <= i < |ceremonies| && PageRecords(ceremonies[i], detail(ceremonies[i].url)) == AllRecords(ceremonies, detail)
    decreases |ceremonies|
  {
    if ceremonies != [] {
      var init, last := ceremonies[..|ceremonies| - 1], ceremonies[|ceremonies| - 1];
      var r := AllRecords(ceremonies, detail);
      AllRecordsPages(init, detail);
      if AllRecords(init, detail).Err? {
        assert r == AllRecords(init, detail);
        var i :| 0 <= i < |init| && PageRecords(init[i], detail(init[i].url)) == r;
        assert init[i] == ceremonies[i];
      } else if PageRecords(last, detail(last.url)).Err? {
        assert r == PageRecords(last, detail(last.url));
      } else {
        forall i | 0 <= i < |ceremonies|
          ensures PageRecords(ceremonies[i], detail(ceremonies[i].url)).Ok?
        {
          if i < |init| {
            assert init[i] == ceremonies[i];
          } else {
            assert ceremonies[i] == last;
          }
        }
      }
    }
  }

  /** Once a prefix of the cells fails, the whole table fails with that exception. */
  lemma {:induction false} CeremonyRecordsFailEarly(c: Ceremony, cells: seq<Cell>, j: nat)
    requires j <= |cells| && CeremonyRecords(c, cells[..j]).Err?
    ensures CeremonyRecords(c, cells) == CeremonyRecords(c, cells[..j])
    decreases |cells| - j
  {
    if j < |cells| {
      var init := cells[..|cells| - 1];
      assert init[..j] == cells[..j];
      CeremonyRecordsFailEarly(c, init, j);
    } else {
      assert cells[..j] == cells;
    }
  }

  /** Once a prefix of the ceremonies fails, the whole run fails with that exception. */
  lemma {:induction false} AllRecordsFailEarly(ceremonies: seq<Ceremony>, detail: string -> DetailPage, i: nat)
    requires i <= |ceremonies| && AllRecords(ceremonies[..i], detail).Err?
    ensures AllRecords(ceremonies, detail) == AllRecords(ceremonies[..i], detail)
    decreases |ceremonies| - i
  {
    if i < |ceremonies| {
      var init := ceremonies[..|ceremonies| - 1];
      assert init[..i] == ceremonies[..i];
      AllRecordsFailEarly(init, detail, i);
    } else {
      assert ceremonies[..i] == ceremonies;
    }
  }

  /** Append a category's winner record, then one nominee record per other movie. */
  method AppendBlock(row: Ceremony, category: string, movie: string, others: seq<string>, movies: seq<Nomination>)
    returns (out: seq<Nomination>)
    ensures out == movies + CategoryBlock(row, category, movie, others)
  {
    out := movies + [Record(row, category, true, movie)];
    for k := 0 to |others|
      invariant out == movies + [Record(row, category, true, movie)] + NomineeRecords(row, category, others[..k])
    {
      out := out + [Record(row, category, false, others[k])];
    }
    assert others[..|others|] == others;
  }

  /** The records of a table split in two are those of its halves, in order. */
  lemma ThenAssociative(a: Result<seq<Nomination>>, b: Result<seq<Nomination>>, d: Result<seq<Nomination>>)
    ensures Then(Then(a, b), d) == Then(a, Then(b, d))
  {
    if a.Ok? && b.Ok? && d.Ok? {
      assert a.value + b.value + d.value == a.value + (b.value + d.value);
    }
  }

  lemma {:induction false} CeremonyRecordsAppend(c: Ceremony, xs: seq<Cell>, ys: seq<Cell>)
    ensures CeremonyRecords(c, xs + ys) == Then(CeremonyRecords(c, xs), CeremonyRecords(c, ys))
    decreases |ys|
  {
    if ys == [] {
      assert xs + ys == xs;
      if CeremonyRecords(c, xs).Ok? {
        assert CeremonyRecords(c, xs).value + [] == CeremonyRecords(c, xs).value;
      }
    } else {
      var init, last := ys[..|ys| - 1], ys[|ys| - 1];
      assert (xs + ys)[..|xs + ys| - 1] == xs + init;
      assert (xs + ys)[|xs + ys| - 1] == last;
      CeremonyRecordsAppend(c, xs, init);
      ThenAssociative(CeremonyRecords(c, xs), CeremonyRecords(c, init), CellRecords(c, last));
    }
  }

  /** A cell without winner markup contributes nothing: removing it changes neither
      the records of the other cells nor the outcome. */
  lemma SkippedCell(c: Ceremony, xs: seq<Cell>, cell: Cell, ys: seq<Cell>)
    requires cell.boldItalicLinks == [] && cell.italicBoldLinks == []
    ensures CeremonyRecords(c, xs + [cell] + ys) == CeremonyRecords(c, xs + ys)
  {
    CeremonyRecordsAppend(c, xs + [cell], ys);
    CeremonyRecordsAppend(c, xs, [cell]);
    CeremonyRecordsAppend(c, xs, ys);
    assert [cell][..0] == [];
    if CeremonyRecords(c, xs).Ok? {
      assert CeremonyRecords(c, xs).value + [] == CeremonyRecords(c, xs).value;
    }
  }

  /** How many records a cell contributes: none without winner markup, else the
      winner and one per nested nominee link. */
  function CellSize(cell: Cell): nat {
    if WinnerLinks(cell) == [] then 0 else 1 + |cell.nomineeLinks|
  }

  function TableSize(cells: seq<Cell>): nat
    decreases |cells|
  {
    if cells == [] then 0 else TableSize(cells[..|cells| - 1]) + CellSize(cells[|cells| - 1])
  }

  /** A ceremony whose table reads without error yields exactly one record per
      winner and per nominee link of its category cells. */
  lemma {:induction false} CeremonyRecordsCount(c: Ceremony, cells: seq<Cell>)
    requires CeremonyRecords(c, cells).Ok?
    ensures |CeremonyRecords(c, cells).value| == TableSize(cells)
    decreases |cells|
  {
    if cells != [] {
      var last := cells[|cells| - 1];
      CeremonyRecordsCount(c, cells[..|cells| - 1]);
      if CellRecords(c, last).value != [] {
        CellRecordsWinnerFirst(c, last);
      }
    }
  }

  /** Every record of a ceremony carries that ceremony's #, Date and url. */
  lemma {:induction false} CeremonyRecordsCopyRow(c: Ceremony, cells: seq<Cell>)
    requires CeremonyRecords(c, cells).Ok?
    ensures forall n :: n in CeremonyRecords(c, cells).value ==>
      n.number == c.number && n.date == c.date && n.wikipediaUrl == c.url
    decreases |cells|
  {
    if cells != [] {
      var last := cells[|cells| - 1];
      CeremonyRecordsCopyRow(c, cells[..|cells| - 1]);
      CellRecordsCopyRow(c, last);
    }
  }

  /** Every record of the run comes from one of the ceremony rows: its #, Date and
      url are that row's. */
  lemma {:induction false} AllRecordsFromRows(ceremonies: seq<Ceremony>, detail: string -> DetailPage)
    requires AllRecords(ceremonies, detail).Ok?
    ensures forall n :: n in AllRecords(ceremonies, detail).value ==>
      exists c :: c in ceremonies && n.number == c.number && n.date == c.date && n.wikipediaUrl == c.url
    decreases |ceremonies|
  {
    if ceremonies != [] {
      var init, c := ceremonies[..|ceremonies| - 1], ceremonies[|ceremonies| - 1];
      AllRecordsFromRows(init, detail);
      var page := detail(c.url);
      CeremonyRecordsCopyRow(c, page.winnersTable.value);
      forall n | n in AllRecords(ceremonies, detail).value
        ensures exists c :: c in ceremonies && n.number == c.number && n.date == c.date && n.wikipediaUrl == c.url
      {
        if n in AllRecords(init, detail).value {
          var d :| d in init && n.number == d.number && n.date == d.date && n.wikipediaUrl == d.url;
          assert d in ceremonies;
        } else {
          assert c in ceremonies;
        }
      }
    }
  }

  /** One more cell that reads extends the records of a table prefix by its own. */
  lemma CeremonyRecordsStep(c: Ceremony, cells: seq<Cell>, j: nat, acc: seq<Nomination>)
    requires j < |cells| && CeremonyRecords(c, cells[..j]) == Ok(acc) && CellRecords(c, cells[j]).Ok?
    ensures CeremonyRecords(c, cells[..j + 1]) == Ok(acc + CellRecords(c, cells[j]).value)
  {
    assert cells[..j + 1][..j] == cells[..j];
  }

  /** One more cell that fails makes the whole table fail with its exception. */
  lemma CeremonyRecordsStop(c: Ceremony, cells: seq<Cell>, j: nat)
    requires j < |cells| && CeremonyRecords(c, cells[..j]).Ok? && CellRecords(c, cells[j]).Err?
    ensures CeremonyRecords(c, cells) == Err(CellRecords(c, cells[j]).error)
  {
    assert cells[..j + 1][..j] == cells[..j];
    CeremonyRecordsFailEarly(c, cells, j + 1);
  }

  /** The body of get_movies_all's loop over the cells of one ceremony's table: append
      the cell's winner record and then its nominee records, or stop with the
      exception the cell raises. */
  method AppendCellRecords(row: Ceremony, cell: Cell, movies: seq<Nomination>) returns (r: Result<seq<Nomination>>)
    ensures CellRecords(row, cell).Err? ==> r == Err(CellRecords(row, cell).error)
    ensures CellRecords(row, cell).Ok? ==> r == Ok(movies + CellRecords(row, cell).value)
  {
    var winner := cell.boldItalicLinks;
    if winner == [] {
      winner := cell.italicBoldLinks;
    }
    if winner == [] {
      assert movies + [] == movies;
      return Ok(movies);
    }
    var categoryName := cell.categoryLinks;
    if categoryName == [] {
      categoryName := cell.categoryBolds;
    }
    if categoryName == [] {
      return Err(IndexError);
    }
    var category := StrippedText(categoryName[|categoryName| - 1]);
    if category.Err? {
      return Err(category.error);
    }
    var movie := StrippedText(winner[0]);
    if movie.Err? {
      return Err(movie.error);
    }
    var others := StrippedTexts(cell.nomineeLinks);
    if others.Err? {
      return Err(others.error);
    }
    var out := AppendBlock(row, category.value, movie.value, others.value, movies);
    CellRecordsIsBlock(row, cell, category.value, movie.value, others.value);
    r := Ok(out);
  }

  lemma AppendAssociative(a: seq<Nomination>, b: seq<Nomination>, d: seq<Nomination>)
    ensures a + b + d == a + (b + d)
  {
  }

  /** get_movies_all's loop over the cells of one ceremony's winners table. */
  method AppendTableRecords(row: Ceremony, cells: seq<Cell>, movies: seq<Nomination>) returns (r: Result<seq<Nomination>>)
    ensures CeremonyRecords(row, cells).Err? ==> r == Err(CeremonyRecords(row, cells).error)
    ensures CeremonyRecords(row, cells).Ok? ==> r == Ok(movies + CeremonyRecords(row, cells).value)
  {
    var out := movies;
    ghost var acc: seq<Nomination> := [];
    assert cells[..0] == [];
    for j := 0 to |cells|
      invariant out == movies + acc
      invariant CeremonyRecords(row, cells[..j]) == Ok(acc)
    {
      var next := AppendCellRecords(row, cells[j], out);
      if next.Err? {
        CeremonyRecordsStop(row, cells, j);
        return next;
      }
      CeremonyRecordsStep(row, cells, j, acc);
      AppendAssociative(movies, acc, CellRecords(row, cells[j]).value);
      acc := acc + CellRecords(row, cells[j]).value;
      out := next.value;
    }
    assert cells[..|cells|] == cells;
    r := Ok(out);
  }

  /** The body of get_movies_all's loop over the ceremonies: a non-2xx answer raises,
      a page without a winners table fails on `[0]`, otherwise the records of the
      table's cells are appended. */
  method AppendPageRecords(row: Ceremony, page: DetailPage, movies: seq<Nomination>) returns (r: Result<seq<Nomination>>)
    ensures PageRecords(row, page).Err? ==> r == Err(PageRecords(row, page).error)
    ensures PageRecords(row, page).Ok? ==> r == Ok(movies + PageRecords(row, page).value)
  {
    if !IsSuccess(page.status) {
      return Err(HttpStatusError);
    }
    if page.winnersTable.None? {
      return Err(IndexError);
    }
    r := AppendTableRecords(row, page.winnersTable.value, movies);
  }

  /** get_movies_all: for every ceremony row, fetch its page and append, cell by
      cell, one winner record and then the nominee records. */
  method GetMoviesAll(ceremonies: seq<Ceremony>, detail: string -> DetailPage) returns (r: Result<seq<Nomination>>)
    ensures r == AllRecords(ceremonies, detail)
  {
    var movies: seq<Nomination> := [];
    for i := 0 to |ceremonies|
      invariant AllRecords(ceremonies[..i], detail) == Ok(movies)
    {
      var row := ceremonies[i];
      assert ceremonies[..i + 1][..i] == ceremonies[..i];
      var next := AppendPageRecords(row, detail(row.url), movies);
      if next.Err? {
        AllRecordsFailEarly(ceremonies, detail, i + 1);
        return next;
      }
      movies := next.value;
    }
    assert ceremonies[..|ceremonies|] == ceremonies;
    r := Ok(movies);
  }
}
