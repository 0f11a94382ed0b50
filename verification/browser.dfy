/** The product tile browser: free-text search over a dataset, pages of
    twelve tiles, and clamped previous/next navigation.

    `TilePass` is one run of the tile interface exactly as the script
    performs it; `Handle` is the event handler with the intended
    behaviour (the page resets only when the term changes, and the tiles
    shown are those of the page the caption names). */
module Browser {
  import opened Seqs
  import opened Text
  import opened Table

  /** Tiles per page. */
  const PageSize: nat := 12

  function Min(a: int, b: int): int {
    if a <= b then a else b
  }

  // ---------------------------------------------------------------- search

  /** The columns of the frame the rows form: every column some row has.
      A row lacking one of them holds NaN there, as in a pandas frame. */
  function Columns(rows: seq<Row>): (cols: set<Column>)
    ensures forall row, c :: row in rows && c in row ==> c in cols
    ensures forall c :: c in cols ==> exists row :: row in rows && c in row
  {
    set row, c | row in rows && c in row.Keys :: c
  }

  /** The cell of `row` in some column of `cols`, printed as text, contains
      `term` ignoring case. */
  predicate Matches(row: Row, cols: set<Column>, term: string, fmt: Fmt) {
    exists c :: c in cols && ContainsIgnoringCase(Str(Cell(row, c), fmt), term)
  }

  /** The rows the search box keeps: all of them for an empty term,
      otherwise those that match, in their original order, with every copy
      of a matching row kept. */
  function Search(rows: seq<Row>, term: string, fmt: Fmt): (r: seq<Row>)
    ensures term == "" ==> r == rows
    ensures forall row :: row in r <==> row in rows && (term == "" || Matches(row, Columns(rows), term, fmt))
    ensures forall row :: multiset(r)[row] == if term == "" || Matches(row, Columns(rows), term, fmt) then multiset(rows)[row] else 0
  {
    var cols := Columns(rows);
    if term == "" then rows else Filter(row => Matches(row, cols, term, fmt), rows)
  }

  /** The search sees a row only through its cells in the frame's columns:
      two rows that read alike there are both kept or both dropped. */
  lemma SearchReadsCells(rows: seq<Row>, term: string, fmt: Fmt, a: Row, b: Row)
    requires a in rows && b in rows
    requires forall c :: c in Columns(rows) ==> Cell(a, c) == Cell(b, c)
    ensures a in Search(rows, term, fmt) <==> b in Search(rows, term, fmt)
  {
    var cols := Columns(rows);
    if Matches(a, cols, term, fmt) {
      var c :| c in cols && ContainsIgnoringCase(Str(Cell(a, c), fmt), term);
      assert ContainsIgnoringCase(Str(Cell(b, c), fmt), term);
    }
    if Matches(b, cols, term, fmt) {
      var c :| c in cols && ContainsIgnoringCase(Str(Cell(b, c), fmt), term);
      assert ContainsIgnoringCase(Str(Cell(a, c), fmt), term);
    }
  }

  /** A row with a NaN cell in a column of the frame, even one the row
      itself lacks, is found by the term "nan", as `astype(str)` prints it. */
  lemma MissingCellFoundAsNan(rows: seq<Row>, row: Row, c: Column, fmt: Fmt)
    requires row in rows && c in Columns(rows) && Cell(row, c) == Missing
    ensures row in Search(rows, "nan", fmt)
  {
    ContainsIgnoringCaseSelf("nan");
    assert Matches(row, Columns(rows), "nan", fmt);
  }

  /** Searching never reorders rows and never adds any. */
  lemma SearchKeepsOrder(rows: seq<Row>, term: string, fmt: Fmt)
    ensures IsSubseq(Search(rows, term, fmt), rows)
    ensures |Search(rows, term, fmt)| <= |rows|
  {
    if term == "" {
      SubseqRefl(rows);
    } else {
      var cols := Columns(rows);
      FilterIsSubseq(row => Matches(row, cols, term, fmt), rows);
    }
  }

  // ------------------------------------------------------------ pagination

  /** Number of pages for `n` results: the ceiling of `n / 12`. */
  function TotalPages(n: nat): (pages: nat)
    ensures pages == 0 <==> n == 0
    ensures n <= pages * PageSize
    ensures n > 0 ==> (pages - 1) * PageSize < n
  {
    n / PageSize + (if n % PageSize > 0 then 1 else 0)
  }

  /** Index of the first row of page `page` (pages count from 1). */
  function PageStart(page: nat): nat
    requires page >= 1
  {
    (page - 1) * PageSize
  }

  /** The rows of page `page`: indices `[(page-1)*12, page*12)` clipped to
      the sequence, so a page past the end is empty. */
  function PageSlice<T>(rows: seq<T>, page: nat): (r: seq<T>)
    requires page >= 1
    ensures |r| <= PageSize
    ensures PageStart(page) >= |rows| ==> r == []
    ensures PageStart(page) < |rows| ==> |r| == Min(PageSize, |rows| - PageStart(page))
    ensures forall i :: 0 <= i < |r| ==> PageStart(page) + i < |rows| && r[i] == rows[PageStart(page) + i]
  {
    var start := PageStart(page);
    if start >= |rows| then [] else rows[start..Min(start + PageSize, |rows|)]
  }

  /** Pages 1 to `k`, concatenated in page order. */
  function Pages<T>(rows: seq<T>, k: nat): seq<T> {
    if k == 0 then [] else Pages(rows, k - 1) + PageSlice(rows, k)
  }

  /** The first `k` pages are the first `12 * k` rows. */
  lemma {:induction false} PagesArePrefix<T>(rows: seq<T>, k: nat)
    ensures Pages(rows, k) == rows[..Min(k * PageSize, |rows|)]
  {
    if k > 0 {
      PagesArePrefix(rows, k - 1);
      var a := Min((k - 1) * PageSize, |rows|);
      var b := Min(k * PageSize, |rows|);
      if PageStart(k) < |rows| {
        assert PageSlice(rows, k) == rows[a..b];
      } else {
        assert a == b;
      }
      assert rows[..a] + rows[a..b] == rows[..b];
    }
  }

  /** Pages 1 to `total_pages` together are exactly the searched rows, in
      order: nothing is repeated and nothing is left out. */
  lemma {:induction false} PaginationCoversAll<T>(rows: seq<T>)
    ensures Pages(rows, TotalPages(|rows|)) == rows
  {
    PagesArePrefix(rows, TotalPages(|rows|));
  }

  /** Row `i` is tile `i % 12` of page `i / 12 + 1`. */
  lemma PageOfRow<T>(rows: seq<T>, i: nat)
    requires i < |rows|
    ensures 1 <= i / PageSize + 1 <= TotalPages(|rows|)
    ensures i % PageSize < |PageSlice(rows, i / PageSize + 1)|
    ensures PageSlice(rows, i / PageSize + 1)[i % PageSize] == rows[i]
  {
    assert PageStart(i / PageSize + 1) + i % PageSize == i;
  }

  // ------------------------------------------------------------ navigation

  /** The arrow button pressed during one run of the script, if any. */
  datatype Click = NoClick | PrevClick | NextClick

  /** The page after a click: "previous" only from a page above 1, "next"
      only from a page below `totalPages`. */
  function Navigate(page: nat, click: Click, totalPages: nat): (p: nat)
    requires page >= 1
    ensures p >= 1
    ensures page <= totalPages ==> p <= totalPages
    ensures click == NoClick ==> p == page
    ensures click == PrevClick ==> (if page > 1 then p == page - 1 else p == page)
    ensures click == NextClick ==> (if page < totalPages then p == page + 1 else p == page)
  {
    match click
    case NoClick => page
    case PrevClick => if page > 1 then page - 1 else page
    case NextClick => if page < totalPages then page + 1 else page
  }

  /** "next" then "previous" returns to the starting page, and so does
      "previous" then "next", whenever neither click is blocked. */
  lemma NavigateRoundTrip(page: nat, totalPages: nat)
    requires page >= 1
    ensures page < totalPages ==> Navigate(Navigate(page, NextClick, totalPages), PrevClick, totalPages) == page
    ensures 1 < page <= totalPages ==> Navigate(Navigate(page, PrevClick, totalPages), NextClick, totalPages) == page
  {
  }

  /** The page after a run of clicks. */
  function Walk(page: nat, clicks: seq<Click>, totalPages: nat): nat
    requires page >= 1
    decreases |clicks|
  {
    if clicks == [] then page
    else Walk(Navigate(page, clicks[0], totalPages), clicks[1..], totalPages)
  }

  /** Starting from page 1, no sequence of clicks leaves `[1, max(1, total)]`. */
  lemma {:induction false} WalkStaysInRange(page: nat, clicks: seq<Click>, totalPages: nat)
    requires 1 <= page && (page <= totalPages || page == 1)
    ensures 1 <= Walk(page, clicks, totalPages)
    ensures Walk(page, clicks, totalPages) <= totalPages || Walk(page, clicks, totalPages) == 1
    decreases |clicks|
  {
    if clicks != [] {
      WalkStaysInRange(Navigate(page, clicks[0], totalPages), clicks[1..], totalPages);
    }
  }

  // -------------------------------------------- one run, as the script does it

  /** What the tile interface shows: the tiles, the result count, and the
      "Page p of n" caption. */
  datatype TileView = TileView(tiles: seq<Row>, totalResults: nat, totalPages: nat, page: nat)

  /** One run of the tile interface as written. A non-empty term sets the
      page to 1 on every run; the tiles are sliced with that page; the arrow
      click of the run is applied only afterwards, and the caption shows the
      page after the click. */
  function TilePass(rows: seq<Row>, term: string, page: nat, click: Click, fmt: Fmt): (v: TileView)
    requires page >= 1
    ensures v.totalResults == |Search(rows, term, fmt)|
    ensures v.totalPages == TotalPages(v.totalResults)
    ensures v.page >= 1
    ensures v.page == Navigate(if term != "" then 1 else page, click, v.totalPages)
    ensures term != "" ==> v.tiles == PageSlice(Search(rows, term, fmt), 1)
    ensures term == "" ==> v.tiles == PageSlice(rows, page)
  {
    var shown := if term != "" then 1 else page;
    var found := Search(rows, term, fmt);
    var total := TotalPages(|found|);
    TileView(PageSlice(found, shown), |found|, total, Navigate(shown, click, total))
  }

  /** As written, the tiles trail the caption: with 13 to 23 rows, clicking
      "next" on page 1 captions page 2 but still shows page 1's tiles. */
  lemma TilesLagCaption(rows: seq<Row>, fmt: Fmt)
    requires PageSize < |rows| < 2 * PageSize
    ensures TilePass(rows, "", 1, NextClick, fmt).page == 2
    ensures TilePass(rows, "", 1, NextClick, fmt).tiles != PageSlice(rows, 2)
  {
    var v := TilePass(rows, "", 1, NextClick, fmt);
    assert |v.tiles| == PageSize;
    assert |PageSlice(rows, 2)| < PageSize;
  }

  /** As written, a non-empty search term pins the tiles to the first page
      of matches whatever the page and the click: with 13 to 23 matches, the
      second page of matches is never shown. */
  lemma SearchPinsFirstPage(rows: seq<Row>, term: string, page: nat, click: Click, fmt: Fmt)
    requires page >= 1 && term != ""
    requires PageSize < |Search(rows, term, fmt)| < 2 * PageSize
    ensures TilePass(rows, term, page, click, fmt).tiles != PageSlice(Search(rows, term, fmt), 2)
  {
    var found := Search(rows, term, fmt);
    assert TilePass(rows, term, page, click, fmt).tiles == PageSlice(found, 1);
    assert |PageSlice(found, 1)| == PageSize;
    assert |PageSlice(found, 2)| < PageSize;
  }

  // ------------------------------------------------ the intended event handler

  /** Search term and current page of one session. */
  datatype Session = Session(term: string, page: nat)

  /** The session on first access: no term, page 1. */
  const Fresh: Session := Session("", 1)

  /** A user interaction with the tile interface. */
  datatype Event = Typed(term: string) | Clicked(click: Click)

  /** The page is in range for the current search (page 1 when there are no
      results). */
  predicate InRange(rows: seq<Row>, s: Session, fmt: Fmt) {
    1 <= s.page && (s.page == 1 || s.page <= TotalPages(|Search(rows, s.term, fmt)|))
  }

  /** The session on first access is in range, whatever the data. */
  lemma FreshInRange(rows: seq<Row>, fmt: Fmt)
    ensures InRange(rows, Fresh, fmt)
  {
  }

  /** The session after an event: a new term resets the page to 1; a click
      navigates within the pages of the current search. */
  function Step(rows: seq<Row>, s: Session, e: Event, fmt: Fmt): (t: Session)
    requires s.page >= 1
    ensures t.page >= 1
    ensures InRange(rows, s, fmt) ==> InRange(rows, t, fmt)
    ensures e.Typed? ==> t.term == e.term && (if e.term != s.term then t.page == 1 else t.page == s.page)
    ensures e.Clicked? ==> t.term == s.term
    ensures e.Clicked? ==> t.page == Navigate(s.page, e.click, TotalPages(|Search(rows, s.term, fmt)|))
  {
    match e
    case Typed(term) => if term != s.term then Session(term, 1) else s
    case Clicked(click) =>
      Session(s.term, Navigate(s.page, click, TotalPages(|Search(rows, s.term, fmt)|)))
  }

  /** Handles one event and renders the new session: the tiles are always
      those of the page the caption names. */
  function Handle(rows: seq<Row>, s: Session, e: Event, fmt: Fmt): (r: (Session, TileView))
    requires s.page >= 1
    ensures r.0 == Step(rows, s, e, fmt)
    ensures r.1.page == r.0.page
    ensures r.1.tiles == PageSlice(Search(rows, r.0.term, fmt), r.1.page)
    ensures r.1.totalPages == TotalPages(r.1.totalResults)
    ensures r.1.totalResults == |Search(rows, r.0.term, fmt)|
    ensures forall k :: 0 <= k < |r.1.tiles| ==>
      (r.1.page - 1) * PageSize + k < r.1.totalResults
      && r.1.tiles[k] == Search(rows, r.0.term, fmt)[(r.1.page - 1) * PageSize + k]
    ensures InRange(rows, s, fmt) ==> InRange(rows, r.0, fmt)
    ensures InRange(rows, s, fmt) && r.1.totalResults > 0 ==> r.1.tiles != []
  {
    var t := Step(rows, s, e, fmt);
    var found := Search(rows, t.term, fmt);
    assert InRange(rows, s, fmt) && found != [] ==> PageStart(t.page) < |found|;
    (t, TileView(PageSlice(found, t.page), |found|, TotalPages(|found|), t.page))
  }

  /** The session after a run of events. */
  function Replay(rows: seq<Row>, s: Session, events: seq<Event>, fmt: Fmt): (t: Session)
    requires s.page >= 1
    ensures t.page >= 1
    ensures InRange(rows, s, fmt) ==> InRange(rows, t, fmt)
    decreases |events|
  {
    if events == [] then s else Replay(rows, Step(rows, s, events[0], fmt), events[1..], fmt)
  }

  /** `k` presses of "next". */
  function Nexts(k: nat): (es: seq<Event>)
    ensures |es| == k
    ensures forall i :: 0 <= i < k ==> es[i] == Clicked(NextClick)
  {
    if k == 0 then [] else [Clicked(NextClick)] + Nexts(k - 1)
  }

  /** "next" below the last page moves one page on and keeps the term. */
  /** "previous" moves down one page from above page 1 and is ignored on page 1. */
  lemma StepPrev(rows: seq<Row>, s: Session, fmt: Fmt)
    requires s.page > 1
    ensures Step(rows, s, Clicked(PrevClick), fmt) == Session(s.term, s.page - 1)
    ensures Step(rows, Session(s.term, 1), Clicked(PrevClick), fmt) == Session(s.term, 1)
  {
  }

  /** "next" moves up one page from below the last page. */
  lemma StepNext(rows: seq<Row>, s: Session, fmt: Fmt)
    requires 1 <= s.page < TotalPages(|Search(rows, s.term, fmt)|)
    ensures Step(rows, s, Clicked(NextClick), fmt) == Session(s.term, s.page + 1)
  {
  }

  /** Pressing "next" `k` times moves `k` pages on while there are pages left. */
  lemma {:induction false} NextsAdvance(rows: seq<Row>, s: Session, k: nat, fmt: Fmt)
    requires s.page >= 1
    requires k == 0 || s.page + k <= TotalPages(|Search(rows, s.term, fmt)|)
    ensures Replay(rows, s, Nexts(k), fmt) == Session(s.term, s.page + k)
    decreases k
  {
    if k > 0 {
      StepNext(rows, s, fmt);
      var t := Session(s.term, s.page + 1);
      assert Nexts(k)[1..] == Nexts(k - 1);
      assert Replay(rows, s, Nexts(k), fmt) == Replay(rows, t, Nexts(k - 1), fmt);
      NextsAdvance(rows, t, k - 1, fmt);
    }
  }

  /** Every match can be brought on screen: after typing a new term, `i / 12`
      presses of "next" show match `i` as tile `i % 12`, under the caption
      of page `i / 12 + 1`. */
  lemma EveryMatchReachable(rows: seq<Row>, s: Session, term: string, i: nat, fmt: Fmt)
    requires s.page >= 1 && term != s.term
    requires i < |Search(rows, term, fmt)|
    ensures Replay(rows, s, [Typed(term)] + Nexts(i / PageSize), fmt) == Session(term, i / PageSize + 1)
    ensures i % PageSize < |Handle(rows, Session(term, i / PageSize + 1), Clicked(NoClick), fmt).1.tiles|
    ensures Handle(rows, Session(term, i / PageSize + 1), Clicked(NoClick), fmt).1.tiles[i % PageSize]
         == Search(rows, term, fmt)[i]
    ensures Handle(rows, Session(term, i / PageSize + 1), Clicked(NoClick), fmt).1.page == i / PageSize + 1
  {
    var found := Search(rows, term, fmt);
    var t := Step(rows, s, Typed(term), fmt);
    assert t == Session(term, 1);
    assert ([Typed(term)] + Nexts(i / PageSize))[1..] == Nexts(i / PageSize);
    PageOfRow(found, i);
    NextsAdvance(rows, t, i / PageSize, fmt);
  }

  /** With the handler, "next" on page 1 of 13 to 23 rows shows page 2's
      tiles under the page-2 caption. */
  lemma HandleShowsCaptionPage(rows: seq<Row>, fmt: Fmt)
    requires PageSize < |rows| < 2 * PageSize
    ensures Handle(rows, Fresh, Clicked(NextClick), fmt).1.page == 2
    ensures Handle(rows, Fresh, Clicked(NextClick), fmt).1.tiles == rows[PageSize..]
  {
    var v := Handle(rows, Fresh, Clicked(NextClick), fmt).1;
    assert v.tiles == PageSlice(rows, 2);
  }

  /** With the handler, after typing a term that matches more than 12 rows,
      "next" shows the thirteenth match onwards. */
  lemma NextPageAfterSearch(rows: seq<Row>, s: Session, term: string, fmt: Fmt)
    requires s.page >= 1 && term != s.term
    requires PageSize < |Search(rows, term, fmt)|
    ensures Handle(rows, Step(rows, s, Typed(term), fmt), Clicked(NextClick), fmt).1.page == 2
    ensures Handle(rows, Step(rows, s, Typed(term), fmt), Clicked(NextClick), fmt).1.tiles
         == Search(rows, term, fmt)[PageSize..Min(2 * PageSize, |Search(rows, term, fmt)|)]
  {
    var found := Search(rows, term, fmt);
    var t := Step(rows, s, Typed(term), fmt);
    assert t == Session(term, 1);
    assert TotalPages(|found|) >= 2;
    var v := Handle(rows, t, Clicked(NextClick), fmt).1;
    assert v.tiles == PageSlice(found, 2);
  }

  /** In every in-range session (the first access is one, and `Step` keeps
      the page in range), a non-empty search result puts at least one tile
      on screen. */
  lemma InRangeShowsTiles(rows: seq<Row>, s: Session, fmt: Fmt)
    requires InRange(rows, s, fmt)
    requires Search(rows, s.term, fmt) != []
    ensures Handle(rows, s, Clicked(NoClick), fmt).1.tiles != []
  {
    var found := Search(rows, s.term, fmt);
    assert PageStart(s.page) < |found|;
  }
}
