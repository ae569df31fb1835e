/**
 The delegations list has its own comparison and its own seek: it sorts by time as a number and seeks by time
 as text. Both are shown to be the shared sort and seek on the row's key.
 */
module Delegations {
  import opened Wrappers
  import opened Sorting
  import opened Pagination
  import opened IsoTime

  datatype Field = CreatedAt | BlockNumber
  datatype Row = Row(id: string, block: int, createdAt: int)

  predicate Dated(row: Row) {
    FourDigitYear(row.createdAt)
  }

  function TimeKey(row: Row): string {
    if Dated(row) then IsoText(row.createdAt) else ""
  }

  function KeyOf(field: Field, dir: Direction): Row -> SortKey {
    (row: Row) =>
      SortKey(if field.BlockNumber? then Bigint else Time,
              if field.BlockNumber? then Whole(row.block) else Text(TimeKey(row)), row.id, dir)
  }

  function CompareRows(collate: Collation, field: Field, dir: Direction): (Row, Row) -> int {
    (a: Row, b: Row) =>
      var direction := if dir.Asc? then 1 else -1;
      var primary := if field.CreatedAt? then a.createdAt - b.createdAt else CompareInts(a.block, b.block);
      if primary != 0 then primary * direction else collate(a.id, b.id) * direction
  }

  function IsAfterCursor(collate: Collation, cursor: SortKey): Row -> bool
    requires WellTyped(cursor)
  {
    (row: Row) =>
      var valueCmp :=
        if cursor.value.Whole? then CompareInts(row.block, cursor.value.n)
        else collate(TimeKey(row), cursor.value.text);
      var cmp := if valueCmp != 0 then valueCmp else collate(row.id, cursor.tiebreak);
      if cursor.dir.Asc? then cmp > 0 else cmp < 0
  }

  function List(collate: Collation, rows: seq<Row>, field: Field, dir: Direction, cursor: Option<SortKey>, limit: nat)
    : Page<Row>
    requires cursor.Some? ==> WellTyped(cursor.value)
  {
    var sorted := Sort(CompareRows(collate, field, dir), rows);
    var paged := if cursor.None? then sorted
                 else Filter(IsAfterCursor(collate, cursor.value), sorted);
    BuildPagination(paged, limit, KeyOf(field, dir))
  }

  /** The collation reads fixed-width timestamps character by character. */
  ghost predicate CollatesTimestamps(collate: Collation) {
    forall a, b {:trigger collate(IsoText(a), IsoText(b))} :: FourDigitYear(a) && FourDigitYear(b) ==>
      SameSign(collate(IsoText(a), IsoText(b)), Lex(IsoText(a), IsoText(b)))
  }

  /** Multiplying by the direction keeps or turns the sign. */
  lemma Directed(x: int, dir: Direction)
    ensures x * (if dir.Asc? then 1 else -1) == if dir.Asc? then x else -x
  {
  }

  lemma CompareRowsIsByKey(collate: Collation, field: Field, dir: Direction, a: Row, b: Row)
    requires CollatesTimestamps(collate) && Dated(a) && Dated(b)
    ensures SameSign(CompareRows(collate, field, dir)(a, b), ByKey(collate, KeyOf(field, dir))(a, b))
  {
    Directed(if field.CreatedAt? then a.createdAt - b.createdAt else CompareInts(a.block, b.block), dir);
    Directed(collate(a.id, b.id), dir);
    if field.CreatedAt? {
      IsoTextOrder(a.createdAt, b.createdAt);
      assert SameSign(collate(IsoText(a.createdAt), IsoText(b.createdAt)), a.createdAt - b.createdAt);
    }
  }

  /** The query the cursor of a list belongs to. */
  function Query(field: Field, dir: Direction): SortKey {
    SortKey(if field.BlockNumber? then Bigint else Time, if field.BlockNumber? then Whole(0) else Text(""), "", dir)
  }

  lemma SortsAgree(collate: Collation, rows: seq<Row>, field: Field, dir: Direction)
    requires CollatesTimestamps(collate) && forall row :: row in rows ==> Dated(row)
    ensures Sort(CompareRows(collate, field, dir), rows) == Sort(ByKey(collate, KeyOf(field, dir)), rows)
  {
    var numeric, byKey := CompareRows(collate, field, dir), ByKey(collate, KeyOf(field, dir));
    forall a, b | a in rows && b in rows ensures numeric(a, b) <= 0 <==> byKey(a, b) <= 0 {
      CompareRowsIsByKey(collate, field, dir, a, b);
    }
    SortAgrees(numeric, byKey, rows);
  }

  lemma AfterCursorIsByKey(collate: Collation, row: Row, field: Field, dir: Direction, cursor: SortKey)
    requires SameQuery(cursor, Query(field, dir))
    ensures IsAfterCursor(collate, cursor)(row) == PastCursor(collate, cursor, KeyOf(field, dir))(row)
  {
    var key := KeyOf(field, dir)(row).(dir := cursor.dir);
    assert PastCursor(collate, cursor, KeyOf(field, dir))(row) == (CompareSortKeys(collate, key, cursor) > 0);
    if cursor.value.Whole? {
      assert CompareValues(collate, key.kind, key.value, cursor.value) == CompareInts(row.block, cursor.value.n);
    } else {
      assert CompareValues(collate, key.kind, key.value, cursor.value) == collate(TimeKey(row), cursor.value.text);
    }
  }

  lemma SeeksAgree(collate: Collation, rows: seq<Row>, field: Field, dir: Direction, cursor: SortKey)
    requires SameQuery(cursor, Query(field, dir))
    ensures Filter(IsAfterCursor(collate, cursor), rows) == Filter(PastCursor(collate, cursor, KeyOf(field, dir)), rows)
  {
    forall row | row in rows
      ensures IsAfterCursor(collate, cursor)(row) == PastCursor(collate, cursor, KeyOf(field, dir))(row)
    {
      AfterCursorIsByKey(collate, row, field, dir, cursor);
    }
    FilterAgrees(IsAfterCursor(collate, cursor), PastCursor(collate, cursor, KeyOf(field, dir)), rows);
  }

  /** The numeric sort with the text seek returns the pages the shared sort and seek would return. */
  lemma ListIsSharedRequest(collate: Collation, rows: seq<Row>, field: Field, dir: Direction, cursor: Option<SortKey>,
                            limit: nat)
    requires CollatesTimestamps(collate) && forall row :: row in rows ==> Dated(row)
    requires cursor.Some? ==> SameQuery(cursor.value, Query(field, dir))
    ensures List(collate, rows, field, dir, cursor, limit) == Request(collate, rows, cursor, limit, KeyOf(field, dir))
  {
    SortsAgree(collate, rows, field, dir);
    if cursor.Some? {
      SeeksAgree(collate, Sort(CompareRows(collate, field, dir), rows), field, dir, cursor.value);
    }
  }

  /** Ids that the collation tells apart, as it does for UUIDs. */
  ghost predicate DistinctIds(collate: Collation, rows: seq<Row>) {
    forall i, j :: 0 <= i < j < |rows| ==> collate(rows[i].id, rows[j].id) != 0
  }

  /** Rows whose ids the collation tells apart have keys that compare differently: the walk theorems apply. */
  lemma ListsArePageable(collate: Collation, field: Field, dir: Direction, rows: seq<Row>)
    requires IsCollation(collate) && DistinctIds(collate, rows)
    ensures Pageable(collate, KeyOf(field, dir), Query(field, dir), rows)
  {
    var keyOf := KeyOf(field, dir);
    forall i, j | 0 <= i < j < |rows| ensures rows[i] != rows[j] {
      CollateTotal(collate, rows[i].id, rows[j].id);
    }
    forall r, r' | r in rows && r' in rows && CompareSortKeys(collate, keyOf(r), keyOf(r')) == 0 ensures r == r' {
      CompareIsTotal(collate, keyOf(r), keyOf(r'));
      CollateTotal(collate, r.id, r'.id);
      var i :| 0 <= i < |rows| && rows[i] == r;
      var j :| 0 <= j < |rows| && rows[j] == r';
    }
  }

  /** A cursor whose value is not of its kind makes the comparison throw; no page is returned then. */
  function ListEndpoint(collate: Collation, field: Field, dir: Direction, limit: nat): Endpoint<Row> {
    (rows: seq<Row>, cursor: Option<SortKey>) =>
      if cursor.Some? && !WellTyped(cursor.value) then Page([], false, None)
      else List(collate, rows, field, dir, cursor, limit)
  }

  ghost predicate AllDated(snapshots: seq<seq<Row>>) {
    forall s, row :: s in snapshots && row in s ==> Dated(row)
  }

  /** Following next_cursor through the delegations list is the shared walk: the same rows, ending at the same page. */
  lemma {:induction false} ListWalkIsSharedWalk(collate: Collation, field: Field, dir: Direction, limit: nat,
                                                snapshots: seq<seq<Row>>, cursor: Option<SortKey>)
    requires CollatesTimestamps(collate) && AllDated(snapshots)
    requires cursor.Some? ==> SameQuery(cursor.value, Query(field, dir))
    ensures Walk(ListEndpoint(collate, field, dir, limit), snapshots, cursor) ==
            Walk(Shared(collate, KeyOf(field, dir), limit), snapshots, cursor)
    ensures Ends(ListEndpoint(collate, field, dir, limit), snapshots, cursor) <==>
            Ends(Shared(collate, KeyOf(field, dir), limit), snapshots, cursor)
    decreases |snapshots|
  {
    if snapshots != [] {
      assert snapshots[0] in snapshots && forall s :: s in snapshots[1..] ==> s in snapshots;
      ListIsSharedRequest(collate, snapshots[0], field, dir, cursor, limit);
      var page := List(collate, snapshots[0], field, dir, cursor, limit);
      if page.next.Some? {
        ListWalkIsSharedWalk(collate, field, dir, limit, snapshots[1..], page.next);
      }
    }
  }

  /**
   While delegations come and go between requests, a walk of the list that ends returns each delegation that was
   there throughout with an unchanged key exactly once.
   */
  lemma ListReturnsEachRowOnce(collate: Collation, field: Field, dir: Direction, limit: nat,
                               snapshots: seq<seq<Row>>, key: SortKey)
    requires IsCollation(collate) && CollatesTimestamps(collate) && limit > 0
    requires AllDated(snapshots) && forall s :: s in snapshots ==> DistinctIds(collate, s)
    requires Ends(ListEndpoint(collate, field, dir, limit), snapshots, None)
    requires forall s :: s in snapshots ==> Carries(KeyOf(field, dir), s, key)
    ensures var walk, keyOf := Walk(ListEndpoint(collate, field, dir, limit), snapshots, None), KeyOf(field, dir);
            && Carries(keyOf, walk, key)
            && forall i, j :: 0 <= i < j < |walk| ==> keyOf(walk[i]) != keyOf(walk[j])
  {
    ListWalkIsSharedWalk(collate, field, dir, limit, snapshots, None);
    forall s | s in snapshots ensures Pageable(collate, KeyOf(field, dir), Query(field, dir), s) {
      ListsArePageable(collate, field, dir, s);
    }
    WalkReturnsEachRowOnce(collate, KeyOf(field, dir), Query(field, dir), limit, snapshots, key);
  }

  /** Over fixed delegations the walk ends after exactly max(1, ceil(n / limit)) pages, with the sorted list. */
  lemma ListFixedWalk(collate: Collation, field: Field, dir: Direction, limit: nat, rows: seq<Row>, k: nat)
    requires IsCollation(collate) && CollatesTimestamps(collate) && limit > 0
    requires (forall row :: row in rows ==> Dated(row)) && DistinctIds(collate, rows)
    ensures var pages, endpoint := PagesNeeded(|rows|, limit), ListEndpoint(collate, field, dir, limit);
            && (Ends(endpoint, Copies(rows, k), None) <==> pages <= k)
            && (pages <= k ==>
                 Walk(endpoint, Copies(rows, k), None) == Sort(CompareRows(collate, field, dir), rows))
  {
    ListsArePageable(collate, field, dir, rows);
    FixedWalk(collate, KeyOf(field, dir), Query(field, dir), limit, rows, k);
    ListWalkIsSharedWalk(collate, field, dir, limit, Copies(rows, k), None);
    SortsAgree(collate, rows, field, dir);
  }

  // ---- The list in plain terms ----

  /** a is listed before b: by time or by block, then by id, in the asked direction. */
  predicate ListedBefore(collate: Collation, field: Field, dir: Direction, a: Row, b: Row) {
    var x, y := if field.CreatedAt? then a.createdAt else a.block, if field.CreatedAt? then b.createdAt else b.block;
    if dir.Asc? then x < y || (x == y && collate(a.id, b.id) < 0)
    else x > y || (x == y && collate(a.id, b.id) > 0)
  }

  /** The cursor handed out for a row: the sort field's value, the time as toISOString text, and the id. */
  function CursorOf(field: Field, dir: Direction, row: Row): SortKey {
    match field
    case CreatedAt => SortKey(Time, Text(if Dated(row) then IsoText(row.createdAt) else ""), row.id, dir)
    case BlockNumber => SortKey(Bigint, Whole(row.block), row.id, dir)
  }

  lemma PrecedesIsListedBefore(collate: Collation, field: Field, dir: Direction, a: Row, b: Row)
    requires IsCollation(collate) && CollatesTimestamps(collate) && Dated(a) && Dated(b)
    ensures KeyOf(field, dir)(a) == CursorOf(field, dir, a)
    ensures Precedes(collate, CursorOf(field, dir, a), CursorOf(field, dir, b)) <==>
            ListedBefore(collate, field, dir, a, b)
  {
    if field.CreatedAt? {
      IsoTextOrder(a.createdAt, b.createdAt);
      assert SameSign(collate(IsoText(a.createdAt), IsoText(b.createdAt)), a.createdAt - b.createdAt);
    }
  }

  function RowBefore(collate: Collation, field: Field, dir: Direction): (Row, Row) -> bool {
    (a: Row, b: Row) => ListedBefore(collate, field, dir, a, b)
  }

  /** After the given row, or anywhere when the list is read from the start. */
  function RowLater(collate: Collation, field: Field, dir: Direction, from: Option<Row>): Row -> bool {
    (row: Row) => from.Some? ==> ListedBefore(collate, field, dir, from.value, row)
  }

  function RowCursor(field: Field, dir: Direction): Row -> SortKey {
    (row: Row) => CursorOf(field, dir, row)
  }

  function CursorFrom(field: Field, dir: Direction, from: Option<Row>): Option<SortKey> {
    if from.None? then None else Some(CursorOf(field, dir, from.value))
  }

  lemma RowsReadAlike(collate: Collation, field: Field, dir: Direction, from: Option<Row>, a: Row, b: Row)
    requires IsCollation(collate) && CollatesTimestamps(collate) && Dated(a) && Dated(b)
    requires from.Some? ==> Dated(from.value)
    ensures KeyBefore(collate, KeyOf(field, dir))(a, b) == RowBefore(collate, field, dir)(a, b)
    ensures KeyLater(collate, KeyOf(field, dir), CursorFrom(field, dir, from))(a) == RowLater(collate, field, dir, from)(a)
    ensures KeyOf(field, dir)(a) == RowCursor(field, dir)(a)
  {
    PrecedesIsListedBefore(collate, field, dir, a, b);
    PrecedesIsListedBefore(collate, field, dir, b, a);
    if from.Some? {
      PrecedesIsListedBefore(collate, field, dir, from.value, a);
    }
  }

  lemma ListReadsByKey(collate: Collation, rows: seq<Row>, field: Field, dir: Direction, from: Option<Row>, limit: nat)
    requires IsCollation(collate) && CollatesTimestamps(collate) && DistinctIds(collate, rows) && limit > 0
    requires (forall row :: row in rows ==> Dated(row)) && (from.Some? ==> Dated(from.value))
    ensures var cursor := CursorFrom(field, dir, from);
            PageReads(KeyBefore(collate, KeyOf(field, dir)), KeyLater(collate, KeyOf(field, dir), cursor),
                      KeyOf(field, dir), rows, limit, List(collate, rows, field, dir, cursor, limit))
  {
    ListsArePageable(collate, field, dir, rows);
    ListIsSharedRequest(collate, rows, field, dir, CursorFrom(field, dir, from), limit);
    PageInPlainTerms(collate, KeyOf(field, dir), Query(field, dir), rows, CursorFrom(field, dir, from), limit);
  }

  lemma SameReading(collate: Collation, rows: seq<Row>, field: Field, dir: Direction, from: Option<Row>, limit: nat,
                    page: Page<Row>)
    requires IsCollation(collate) && CollatesTimestamps(collate)
    requires (forall row :: row in rows ==> Dated(row)) && (from.Some? ==> Dated(from.value))
    requires PageReads(KeyBefore(collate, KeyOf(field, dir)),
                       KeyLater(collate, KeyOf(field, dir), CursorFrom(field, dir, from)), KeyOf(field, dir), rows, limit,
                       page)
    ensures PageReads(RowBefore(collate, field, dir), RowLater(collate, field, dir, from), RowCursor(field, dir), rows,
                      limit, page)
  {
    var before, before' := KeyBefore(collate, KeyOf(field, dir)), RowBefore(collate, field, dir);
    var later := KeyLater(collate, KeyOf(field, dir), CursorFrom(field, dir, from));
    var later', cursorOf := RowLater(collate, field, dir, from), RowCursor(field, dir);
    forall a, b | a in rows && b in rows ensures before(a, b) == before'(a, b) {
      RowsReadAlike(collate, field, dir, from, a, b);
    }
    forall a | a in rows ensures later(a) == later'(a) && KeyOf(field, dir)(a) == cursorOf(a) {
      RowsReadAlike(collate, field, dir, from, a, a);
    }
    ReadsAlike(before, before', later, later', KeyOf(field, dir), cursorOf, rows, limit, page);
  }

  /**
   After the cursor of a row, or from the start: the list shows the next rows by time or by block, equal ones by id, up
   to the limit; it says there are more exactly when a later row is not shown, and hands out its last row's cursor.
   */
  lemma ListInPlainTerms(collate: Collation, rows: seq<Row>, field: Field, dir: Direction, from: Option<Row>, limit: nat)
    requires IsCollation(collate) && CollatesTimestamps(collate) && DistinctIds(collate, rows) && limit > 0
    requires (forall row :: row in rows ==> Dated(row)) && (from.Some? ==> Dated(from.value))
    ensures PageReads(RowBefore(collate, field, dir), RowLater(collate, field, dir, from), RowCursor(field, dir), rows,
                      limit, List(collate, rows, field, dir, CursorFrom(field, dir, from), limit))
  {
    ListReadsByKey(collate, rows, field, dir, from, limit);
    var cursor := CursorFrom(field, dir, from);
    SameReading(collate, rows, field, dir, from, limit, List(collate, rows, field, dir, cursor, limit));
  }
}
