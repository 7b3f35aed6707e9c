/**
 The badge layout engine: `create_name_badges` walks the attendee records in
 order and fills a grid of 2 columns by 4 rows per page, starting a new grid
 (after a page break, except for the first) every 8 badges. Rendering is
 abstracted to a sequence of layout events recorded by a `Document`.
 */
module Layout {
  import opened Normalizer

  const BadgesPerRow: nat := 2
  const BadgesPerColumn: nat := 4
  const BadgesPerPage: nat := BadgesPerRow * BadgesPerColumn

  /** Font sizes in points of the name line and of the two smaller lines. */
  const NameSize: nat := 18
  const DetailSize: nat := 14

  datatype Colour = Default | Rgb(red: nat, green: nat, blue: nat)

  /** The medium green of the annotation line. */
  const AnnotationColour: Colour := Rgb(0, 128, 0)

  /** One bold, centred paragraph of a badge's text column. */
  datatype Line = Line(text: string, size: nat, colour: Colour)

  /** Where a badge lands: the page (equivalently, the grid) and the cell. */
  datatype Position = Position(page: nat, row: nat, col: nat)

  /** What `create_name_badges` does to the document, rendering aside. */
  datatype Event =
    | NewGrid(rows: nat, cols: nat)
    | PageBreak
    | Place(at: Position, lines: seq<Line>)

  // ---------------------------------------------------------------------
  // Grid positions (lines 84-85)
  // ---------------------------------------------------------------------

  /** `row_idx = (i % badges_per_page) // badges_per_row` */
  function RowIndex(i: nat): (r: nat)
    ensures r < BadgesPerColumn
  {
    (i % BadgesPerPage) / BadgesPerRow
  }

  /** `col_idx = (i % badges_per_page) % badges_per_row` */
  function ColIndex(i: nat): (c: nat)
    ensures c < BadgesPerRow
  {
    (i % BadgesPerPage) % BadgesPerRow
  }

  /** The position of the badge of attendee `i`: its grid is the one started
      at the last multiple of 8 not above `i`. */
  function PositionOf(i: nat): Position {
    Position(i / BadgesPerPage, RowIndex(i), ColIndex(i))
  }

  /** A cell of the grid. */
  predicate InGrid(p: Position) {
    p.row < BadgesPerColumn && p.col < BadgesPerRow
  }

  /** The fill order: the attendee index that a position belongs to. */
  function IndexOf(p: Position): nat {
    p.page * BadgesPerPage + p.row * BadgesPerRow + p.col
  }

  /** Every attendee lands inside the grid, and its position determines it. */
  lemma IndexOfPositionOf(i: nat)
    ensures InGrid(PositionOf(i))
    ensures IndexOf(PositionOf(i)) == i
  {
    var m := i % BadgesPerPage;
    assert m == RowIndex(i) * BadgesPerRow + ColIndex(i);
    assert i == (i / BadgesPerPage) * BadgesPerPage + m;
  }

  /** Every cell of every page is the position of exactly one index: the grid
      is filled without gaps. */
  lemma PositionOfIndexOf(p: Position)
    requires InGrid(p)
    ensures PositionOf(IndexOf(p)) == p
  {
    var m := p.row * BadgesPerRow + p.col;
    var i := IndexOf(p);
    assert 0 <= m < BadgesPerPage;
    assert i == p.page * BadgesPerPage + m;
    assert i / BadgesPerPage == p.page && i % BadgesPerPage == m by {
      DivModUnique(i, p.page, m);
    }
  }

  lemma DivModUnique(i: nat, q: nat, m: nat)
    requires m < BadgesPerPage && i == q * BadgesPerPage + m
    ensures i / BadgesPerPage == q && i % BadgesPerPage == m
  {
  }

  /** No two attendees share a position. */
  lemma PositionInjective(i: nat, j: nat)
    requires PositionOf(i) == PositionOf(j)
    ensures i == j
  {
    IndexOfPositionOf(i);
    IndexOfPositionOf(j);
  }

  /** Within a page, a later attendee is in a later row, or further right in
      the same row. */
  lemma FillOrder(i: nat, j: nat)
    requires i < j && i / BadgesPerPage == j / BadgesPerPage
    ensures RowIndex(i) < RowIndex(j) || (RowIndex(i) == RowIndex(j) && ColIndex(i) < ColIndex(j))
  {
    IndexOfPositionOf(i);
    IndexOfPositionOf(j);
  }

  // ---------------------------------------------------------------------
  // Cell text (lines 109-131)
  // ---------------------------------------------------------------------

  /** The text column of a badge: the name, the organisation and, when the
      annotation is non-empty, the annotation in green. */
  function CellLines(a: Attendee): (lines: seq<Line>)
    ensures |lines| == 2 <==> a.additional == ""
    ensures |lines| == 3 <==> a.additional != ""
    ensures lines[0] == Line(a.firstName + " " + a.lastName, NameSize, Default)
    ensures lines[1] == Line(a.organisation, DetailSize, Default)
    ensures |lines| == 3 ==> lines[2] == Line(a.additional, DetailSize, AnnotationColour)
    ensures forall k :: 0 <= k < |lines| ==> (lines[k].colour == AnnotationColour <==> k == 2)
  {
    var name := Line(a.firstName + " " + a.lastName, NameSize, Default);
    var org := Line(a.organisation, DetailSize, Default);
    if a.additional != "" then [name, org, Line(a.additional, DetailSize, AnnotationColour)]
    else [name, org]
  }

  // ---------------------------------------------------------------------
  // The event sequence
  // ---------------------------------------------------------------------

  /** The events that open a grid for attendee `i` (lines 74-77): a page
      break, unless this is the first grid, then the grid itself; nothing
      when `i` is not a multiple of 8. */
  function GridStart(i: nat): seq<Event> {
    if i % BadgesPerPage == 0 then
      (if i > 0 then [PageBreak] else []) + [NewGrid(BadgesPerColumn, BadgesPerRow)]
    else []
  }

  /** The events of one pass of the loop at lines 73-131, for attendee `i`. */
  function BadgeEvents(i: nat, a: Attendee): seq<Event> {
    GridStart(i) + [Place(PositionOf(i), CellLines(a))]
  }

  /** The events of the whole run over `attendees`, in order. */
  function Events(attendees: seq<Attendee>): seq<Event>
    decreases |attendees|
  {
    if |attendees| == 0 then []
    else
      var n := |attendees| - 1;
      Events(attendees[..n]) + BadgeEvents(n, attendees[n])
  }

  /** Number of grids started. */
  function Grids(events: seq<Event>): nat
    decreases |events|
  {
    if |events| == 0 then 0
    else Grids(events[..|events| - 1]) + (if events[|events| - 1].NewGrid? then 1 else 0)
  }

  /** Number of page breaks. */
  function Breaks(events: seq<Event>): nat
    decreases |events|
  {
    if |events| == 0 then 0
    else Breaks(events[..|events| - 1]) + (if events[|events| - 1].PageBreak? then 1 else 0)
  }

  /** The badges placed, in order. */
  function Placements(events: seq<Event>): seq<Event>
    decreases |events|
  {
    if |events| == 0 then []
    else Placements(events[..|events| - 1]) + (if events[|events| - 1].Place? then [events[|events| - 1]] else [])
  }

  /** `ceil(n / 8)`: the number of pages `n` badges take. */
  function Pages(n: nat): nat {
    (n + BadgesPerPage - 1) / BadgesPerPage
  }

  lemma {:induction false} CountsAppend(s: seq<Event>, t: seq<Event>)
    ensures Grids(s + t) == Grids(s) + Grids(t)
    ensures Breaks(s + t) == Breaks(s) + Breaks(t)
    ensures Placements(s + t) == Placements(s) + Placements(t)
    decreases |t|
  {
    if |t| == 0 {
      assert s + t == s;
    } else {
      var t', e := t[..|t| - 1], t[|t| - 1];
      assert (s + t)[..|s + t| - 1] == s + t';
      assert (s + t)[|s + t| - 1] == e;
      CountsAppend(s, t');
      var ps, pt := Placements(s), Placements(t');
      var pe := if e.Place? then [e] else [];
      assert ps + pt + pe == ps + (pt + pe);
    }
  }

  /** `n` attendees start a grid at each multiple of 8 below `n`, with a page
      break before every grid but the first; the badges are placed in
      attendee order at their positions. */
  lemma {:induction false} EventsSpec(attendees: seq<Attendee>)
    ensures Grids(Events(attendees)) == Pages(|attendees|)
    ensures Breaks(Events(attendees)) == if |attendees| == 0 then 0 else Pages(|attendees|) - 1
    ensures Placements(Events(attendees)) == PlacedInOrder(attendees)
    decreases |attendees|
  {
    if |attendees| > 0 {
      var n := |attendees| - 1;
      var init := attendees[..n];
      EventsSpec(init);
      var b := BadgeEvents(n, attendees[n]);
      CountsAppend(Events(init), b);
      BadgeEventsCounts(n, attendees[n]);
      PagesStep(n);
      PlacedInOrderSnoc(attendees);
    }
  }

  /** Every page break is immediately followed by a new grid. */
  predicate BreaksBeforeGrids(events: seq<Event>) {
    forall k :: 0 <= k < |events| && events[k].PageBreak? ==> k + 1 < |events| && events[k + 1].NewGrid?
  }

  /** The run opens with a grid, and a page break only ever comes right
      before the next grid. */
  lemma {:induction false} EventsShape(attendees: seq<Attendee>)
    ensures |attendees| > 0 ==> Events(attendees)[0] == NewGrid(BadgesPerColumn, BadgesPerRow)
    ensures BreaksBeforeGrids(Events(attendees))
    decreases |attendees|
  {
    if |attendees| > 0 {
      var n := |attendees| - 1;
      var init := attendees[..n];
      EventsShape(init);
      var prev := Events(init);
      var grid := NewGrid(BadgesPerColumn, BadgesPerRow);
      var b := BadgeEvents(n, attendees[n]);
      var ev := Events(attendees);
      assert ev == prev + b;
      if n == 0 {
        assert prev == [];
        assert b[0] == grid;
      } else {
        assert |prev| > 0;
        assert ev[0] == prev[0];
      }
      forall k | 0 <= k < |ev| && ev[k].PageBreak?
        ensures k + 1 < |ev| && ev[k + 1].NewGrid?
      {
        if k < |prev| {
          assert prev[k].PageBreak?;
          assert ev[k + 1] == prev[k + 1];
        } else {
          assert b[k - |prev|].PageBreak?;
          assert n % BadgesPerPage == 0 && n > 0 && k == |prev|;
          assert b[1] == grid;
        }
      }
    }
  }

  /** The badges of `attendees` at their positions, in attendee order. */
  function PlacedInOrder(attendees: seq<Attendee>): seq<Event> {
    seq(|attendees|, i requires 0 <= i < |attendees| => Place(PositionOf(i), CellLines(attendees[i])))
  }

  lemma PlacedInOrderSnoc(attendees: seq<Attendee>)
    requires |attendees| > 0
    ensures var n := |attendees| - 1;
      PlacedInOrder(attendees) == PlacedInOrder(attendees[..n]) + [Place(PositionOf(n), CellLines(attendees[n]))]
  {
  }

  /** One attendee starts a grid exactly at a multiple of 8, preceded by a
      page break unless it is the first, and places one badge. */
  lemma BadgeEventsCounts(i: nat, a: Attendee)
    ensures Grids(BadgeEvents(i, a)) == (if i % BadgesPerPage == 0 then 1 else 0)
    ensures Breaks(BadgeEvents(i, a)) == (if i % BadgesPerPage == 0 && i > 0 then 1 else 0)
    ensures Placements(BadgeEvents(i, a)) == [Place(PositionOf(i), CellLines(a))]
  {
    var place := Place(PositionOf(i), CellLines(a));
    SingleCounts(place);
    GridStartCounts(i);
    CountsAppend(GridStart(i), [place]);
  }

  lemma GridStartCounts(i: nat)
    ensures Grids(GridStart(i)) == (if i % BadgesPerPage == 0 then 1 else 0)
    ensures Breaks(GridStart(i)) == (if i % BadgesPerPage == 0 && i > 0 then 1 else 0)
    ensures Placements(GridStart(i)) == []
  {
    var grid := NewGrid(BadgesPerColumn, BadgesPerRow);
    if i % BadgesPerPage == 0 {
      SingleCounts(grid);
      if i > 0 {
        SingleCounts(PageBreak);
        CountsAppend([PageBreak], [grid]);
      } else {
        assert GridStart(i) == [grid];
      }
    }
  }

  lemma SingleCounts(e: Event)
    ensures Grids([e]) == (if e.NewGrid? then 1 else 0)
    ensures Breaks([e]) == (if e.PageBreak? then 1 else 0)
    ensures Placements([e]) == (if e.Place? then [e] else [])
  {
    assert [e][..0] == [];
  }

  /** One more attendee appends its own events. */
  lemma EventsSnoc(attendees: seq<Attendee>, i: nat)
    requires i < |attendees|
    ensures Events(attendees[..i + 1]) == Events(attendees[..i]) + BadgeEvents(i, attendees[i])
  {
    assert attendees[..i + 1][..i] == attendees[..i];
  }

  /** How the page count and the page of an index move from `n` to `n + 1`. */
  lemma PagesStep(n: nat)
    ensures Pages(n + 1) == Pages(n) + (if n % BadgesPerPage == 0 then 1 else 0)
    ensures n % BadgesPerPage == 0 ==> n / BadgesPerPage == Pages(n)
    ensures n % BadgesPerPage != 0 ==> n / BadgesPerPage < Pages(n)
    ensures (n + 1) % BadgesPerPage != 0 ==> (n + 1) / BadgesPerPage == n / BadgesPerPage
    ensures n > 0 ==> Pages(n) >= 1
  {
    var q, m := n / BadgesPerPage, n % BadgesPerPage;
    assert n == q * BadgesPerPage + m;
    DivModUnique(n + BadgesPerPage, q + 1, m);
    if m == 0 {
      DivModUnique(n + BadgesPerPage - 1, q, BadgesPerPage - 1);
    } else {
      DivModUnique(n + BadgesPerPage - 1, q + 1, m - 1);
    }
    if m + 1 < BadgesPerPage {
      DivModUnique(n + 1, q, m + 1);
    } else {
      DivModUnique(n + 1, q + 1, 0);
    }
  }

  // ---------------------------------------------------------------------
  // The imperative loop (lines 54-133)
  // ---------------------------------------------------------------------

  /** The document under construction: the events so far and the number of
      grids (tables) it holds. */
  class Document {
    var events: seq<Event>
    var tables: nat

    ghost predicate Valid()
      reads this
    {
      tables == Grids(events)
    }

    /** `Document()`: an empty document. */
    constructor ()
      ensures Valid() && events == []
    {
      events := [];
      tables := 0;
    }

    /** `document.add_page_break()` */
    method AddPageBreak()
      requires Valid()
      modifies this
      ensures Valid()
      ensures events == old(events) + [PageBreak] && tables == old(tables)
    {
      assert (events + [PageBreak])[..|events|] == events;
      events := events + [PageBreak];
    }

    /** `document.add_table(rows=4, cols=2)`, returning the new table's number. */
    method AddTable() returns (table: nat)
      requires Valid()
      modifies this
      ensures Valid()
      ensures events == old(events) + [NewGrid(BadgesPerColumn, BadgesPerRow)]
      ensures table == old(tables) && tables == old(tables) + 1
    {
      assert (events + [NewGrid(BadgesPerColumn, BadgesPerRow)])[..|events|] == events;
      events := events + [NewGrid(BadgesPerColumn, BadgesPerRow)];
      table := tables;
      tables := tables + 1;
    }

    /** `table.cell(row, col)` filled with a badge's text; the cell must exist. */
    method FillCell(table: nat, row: nat, col: nat, lines: seq<Line>)
      requires Valid() && table < tables && row < BadgesPerColumn && col < BadgesPerRow
      modifies this
      ensures Valid()
      ensures events == old(events) + [Place(Position(table, row, col), lines)] && tables == old(tables)
    {
      assert (events + [Place(Position(table, row, col), lines)])[..|events|] == events;
      events := events + [Place(Position(table, row, col), lines)];
    }
  }

  /** `create_name_badges` without the rendering: the document it builds holds
      exactly the events of `Events(attendees)`, one grid per page. */
  method CreateNameBadges(attendees: seq<Attendee>) returns (document: Document)
    ensures fresh(document) && document.Valid()
    ensures document.events == Events(attendees)
    ensures document.tables == Pages(|attendees|)
  {
    document := new Document();
    var table: nat := 0;
    var i := 0;
    while i < |attendees|
      invariant 0 <= i <= |attendees|
      invariant document.Valid()
      invariant document.events == Events(attendees[..i])
      invariant document.tables == Pages(i)
      invariant i % BadgesPerPage != 0 ==> table == i / BadgesPerPage && table < document.tables
    {
      EventsSnoc(attendees, i);
      PagesStep(i);
      if i % BadgesPerPage == 0 {
        if i > 0 {
          document.AddPageBreak();
        }
        table := document.AddTable();
      }
      var lines := CellLines(attendees[i]);
      document.FillCell(table, RowIndex(i), ColIndex(i), lines);
      i := i + 1;
    }
    assert attendees[..i] == attendees;
  }

  // ---------------------------------------------------------------------
  // Consequences
  // ---------------------------------------------------------------------

  /** No attendees, no grids, no page breaks, nothing at all. */
  lemma NoAttendees()
    ensures Events([]) == []
    ensures Grids(Events([])) == 0 && Breaks(Events([])) == 0
  {
  }

  /** The badges placed occupy pairwise distinct grid cells. */
  lemma PlacementsDistinct(attendees: seq<Attendee>, i: nat, j: nat)
    requires i < j < |attendees|
    ensures var ps := Placements(Events(attendees));
      && |ps| == |attendees|
      && ps[i].Place? && ps[j].Place? && InGrid(ps[i].at) && InGrid(ps[j].at)
      && ps[i].at != ps[j].at
  {
    EventsSpec(attendees);
    IndexOfPositionOf(i);
    IndexOfPositionOf(j);
    if PositionOf(i) == PositionOf(j) {
      PositionInjective(i, j);
    }
  }

  /** Nine attendees: two grids with one page break between them; the first
      page holds eight badges and the ninth lands alone at row 0, column 0 of
      the second page. */
  lemma NineAttendees(attendees: seq<Attendee>)
    requires |attendees| == 9
    ensures Grids(Events(attendees)) == 2 && Breaks(Events(attendees)) == 1
    ensures var ps := Placements(Events(attendees));
      && |ps| == 9
      && (forall k :: 0 <= k < 8 ==> ps[k].Place? && ps[k].at.page == 0)
      && ps[8] == Place(Position(1, 0, 0), CellLines(attendees[8]))
  {
    EventsSpec(attendees);
  }
}
