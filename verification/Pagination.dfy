/**
 Keyset pagination over lists sorted in memory: sort, drop everything up to the cursor, cut a page, and hand
 out the last row's key as the next cursor. Every request fetches its own rows, so a walk sees a row set
 that may change between pages.
 */
module Pagination {
  import opened Wrappers
  import opened Sorting

  datatype Direction = Asc | Desc
  datatype Kind = Time | Numeric | Bigint
  datatype Value = Text(text: string) | Whole(n: int)
  datatype SortKey = SortKey(kind: Kind, value: Value, tiebreak: string, dir: Direction)

  type Collation = (string, string) -> int

  /** localeCompare is a total preorder: different spellings of one text may tie. */
  ghost predicate IsCollation(collate: Collation) {
    && (forall a, b {:trigger collate(a, b)} :: collate(a, b) < 0 <==> collate(b, a) > 0)
    && (forall a, b, c {:trigger collate(a, b), collate(b, c)} ::
         collate(a, b) <= 0 && collate(b, c) <= 0 ==> collate(a, c) <= 0)
  }

  /** Time values are text; numeric and bigint values are exact integers. Anything else makes BigInt throw. */
  predicate WellTyped(key: SortKey) {
    if key.kind.Time? then key.value.Text? else key.value.Whole?
  }

  function CompareValues(collate: Collation, kind: Kind, a: Value, b: Value): int {
    if kind.Time? then (if a.Text? && b.Text? then collate(a.text, b.text) else 0)
    else if a.Whole? && b.Whole? then CompareInts(a.n, b.n)
    else 0
  }

  function Base(collate: Collation, a: SortKey, b: SortKey): int {
    var v := CompareValues(collate, a.kind, a.value, b.value);
    if v != 0 then v else collate(a.tiebreak, b.tiebreak)
  }

  function CompareSortKeys(collate: Collation, a: SortKey, b: SortKey): int {
    var base := Base(collate, a, b);
    if a.dir.Asc? then base else -base
  }

  predicate SameQuery(a: SortKey, b: SortKey) {
    a.kind == b.kind && a.dir == b.dir && WellTyped(a) && WellTyped(b)
  }

  /** Keys of one query compare one way round, and tie exactly where their values and their tiebreaks both do. */
  lemma CompareIsTotal(collate: Collation, a: SortKey, b: SortKey)
    requires IsCollation(collate) && SameQuery(a, b)
    ensures CompareSortKeys(collate, a, b) < 0 <==> CompareSortKeys(collate, b, a) > 0
    ensures CompareSortKeys(collate, a, a) == 0
    ensures CompareSortKeys(collate, a, b) == 0 <==>
            CompareValues(collate, a.kind, a.value, b.value) == 0 && collate(a.tiebreak, b.tiebreak) == 0
  {
    CollateTotal(collate, a.tiebreak, b.tiebreak);
    CollateTotal(collate, a.tiebreak, a.tiebreak);
    if a.kind.Time? {
      CollateTotal(collate, a.value.text, b.value.text);
      CollateTotal(collate, a.value.text, a.value.text);
    }
  }

  lemma CollateTotal(collate: Collation, a: string, b: string)
    requires IsCollation(collate)
    ensures collate(a, b) < 0 <==> collate(b, a) > 0
    ensures collate(b, a) < 0 <==> collate(a, b) > 0
    ensures collate(a, a) == 0
  {
    assert collate(a, a) < 0 <==> collate(a, a) > 0;
  }

  lemma CollateTransitive(collate: Collation, a: string, b: string, c: string)
    requires IsCollation(collate) && collate(a, b) <= 0 && collate(b, c) <= 0
    ensures collate(a, c) <= 0 && (collate(a, b) < 0 || collate(b, c) < 0 ==> collate(a, c) < 0)
  {
    CollateTotal(collate, a, b);
    CollateTotal(collate, b, c);
    CollateTotal(collate, a, c);
    assert collate(c, a) <= 0 && collate(a, b) <= 0 ==> collate(c, b) <= 0;
    assert collate(b, c) <= 0 && collate(c, a) <= 0 ==> collate(b, a) <= 0;
  }

  lemma ValuesTransitive(collate: Collation, a: SortKey, b: SortKey, c: SortKey)
    requires IsCollation(collate) && SameQuery(a, b) && SameQuery(b, c)
    requires CompareValues(collate, a.kind, a.value, b.value) <= 0 && CompareValues(collate, b.kind, b.value, c.value) <= 0
    ensures var v := CompareValues(collate, a.kind, a.value, c.value);
            && v <= 0
            && (v < 0 <==> CompareValues(collate, a.kind, a.value, b.value) < 0
                           || CompareValues(collate, b.kind, b.value, c.value) < 0)
  {
    if a.kind.Time? {
      var x, y, z := a.value.text, b.value.text, c.value.text;
      CollateTransitive(collate, x, y, z);
      CollateTotal(collate, x, y);
      CollateTotal(collate, y, z);
      CollateTotal(collate, x, z);
      assert collate(z, y) <= 0 && collate(y, x) <= 0 ==> collate(z, x) <= 0;
    }
  }

  lemma BaseTransitive(collate: Collation, a: SortKey, b: SortKey, c: SortKey)
    requires IsCollation(collate) && SameQuery(a, b) && SameQuery(b, c)
    requires Base(collate, a, b) <= 0 && Base(collate, b, c) <= 0
    ensures Base(collate, a, c) <= 0
    ensures Base(collate, a, b) < 0 || Base(collate, b, c) < 0 ==> Base(collate, a, c) < 0
  {
    ValuesTransitive(collate, a, b, c);
    if CompareValues(collate, a.kind, a.value, c.value) == 0 {
      CollateTransitive(collate, a.tiebreak, b.tiebreak, c.tiebreak);
    }
  }

  /** And the order is transitive, a strict step making the whole strict. */
  lemma CompareIsTransitive(collate: Collation, a: SortKey, b: SortKey, c: SortKey)
    requires IsCollation(collate) && SameQuery(a, b) && SameQuery(b, c)
    requires CompareSortKeys(collate, a, b) <= 0 && CompareSortKeys(collate, b, c) <= 0
    ensures CompareSortKeys(collate, a, c) <= 0
    ensures CompareSortKeys(collate, a, b) < 0 || CompareSortKeys(collate, b, c) < 0 ==>
              CompareSortKeys(collate, a, c) < 0
  {
    if a.dir.Asc? {
      BaseTransitive(collate, a, b, c);
    } else {
      BaseReverses(collate, a, b);
      BaseReverses(collate, b, c);
      BaseReverses(collate, a, c);
      BaseTransitive(collate, c, b, a);
    }
  }

  lemma BaseReverses(collate: Collation, a: SortKey, b: SortKey)
    requires IsCollation(collate) && SameQuery(a, b)
    ensures (Base(collate, a, b) < 0 <==> Base(collate, b, a) > 0) && (Base(collate, a, b) > 0 <==> Base(collate, b, a) < 0)
  {
    CollateTotal(collate, a.tiebreak, b.tiebreak);
    if a.kind.Time? {
      CollateTotal(collate, a.value.text, b.value.text);
    }
  }

  // ---- One request ----

  function ByKey<T>(collate: Collation, keyOf: T -> SortKey): (T, T) -> int {
    (a, b) => CompareSortKeys(collate, keyOf(a), keyOf(b))
  }

  /** The row sorts strictly after the cursor, in the cursor's direction. */
  function PastCursor<T>(collate: Collation, cursor: SortKey, keyOf: T -> SortKey): T -> bool {
    row => CompareSortKeys(collate, keyOf(row).(dir := cursor.dir), cursor) > 0
  }

  function SortAndSeek<T>(collate: Collation, rows: seq<T>, cursor: Option<SortKey>, keyOf: T -> SortKey): seq<T> {
    var sorted := Sort(ByKey(collate, keyOf), rows);
    match cursor
    case None => sorted
    case Some(c) => Filter(PastCursor(collate, c, keyOf), sorted)
  }

  datatype Page<T> = Page(data: seq<T>, hasMore: bool, next: Option<SortKey>)

  function BuildPagination<T>(rows: seq<T>, limit: nat, keyOf: T -> SortKey): Page<T> {
    var hasMore := |rows| > limit;
    var data := if hasMore then rows[..limit] else rows;
    if data == [] then Page(data, false, None)
    else Page(data, hasMore, if hasMore then Some(keyOf(data[|data| - 1])) else None)
  }

  function Request<T>(collate: Collation, rows: seq<T>, cursor: Option<SortKey>, limit: nat, keyOf: T -> SortKey)
    : Page<T>
  {
    BuildPagination(SortAndSeek(collate, rows, cursor, keyOf), limit, keyOf)
  }

  /** Rows of one query: one kind and direction, and keys that compare differently on different rows. */
  ghost predicate Pageable<T(!new)>(collate: Collation, keyOf: T -> SortKey, query: SortKey, rows: seq<T>) {
    && NoDuplicates(rows)
    && (forall r :: r in rows ==> SameQuery(keyOf(r), query))
    && (forall r, r' :: r in rows && r' in rows && CompareSortKeys(collate, keyOf(r), keyOf(r')) == 0 ==> r == r')
  }

  ghost predicate After<T>(collate: Collation, keyOf: T -> SortKey, cursor: Option<SortKey>, r: T) {
    cursor.None? || CompareSortKeys(collate, keyOf(r), cursor.value) > 0
  }

  lemma KeysOrder<T(!new)>(collate: Collation, keyOf: T -> SortKey, query: SortKey, rows: seq<T>)
    requires IsCollation(collate) && Pageable(collate, keyOf, query, rows)
    ensures Orders(ByKey(collate, keyOf), rows)
  {
    var cmp := ByKey(collate, keyOf);
    forall a, b | a in rows && b in rows
      ensures (cmp(a, b) < 0 <==> cmp(b, a) > 0) && (cmp(a, b) == 0 <==> a == b)
    {
      CompareIsTotal(collate, keyOf(a), keyOf(b));
    }
    forall a, b, c | a in rows && b in rows && c in rows && cmp(a, b) < 0 && cmp(b, c) < 0
      ensures cmp(a, c) < 0
    {
      CompareIsTransitive(collate, keyOf(a), keyOf(b), keyOf(c));
    }
  }

  lemma SeekFacts<T(!new)>(collate: Collation, keyOf: T -> SortKey, query: SortKey, rows: seq<T>,
                           cursor: Option<SortKey>)
    requires IsCollation(collate) && Pageable(collate, keyOf, query, rows)
    requires cursor.Some? ==> SameQuery(cursor.value, query)
    ensures var seeked := SortAndSeek(collate, rows, cursor, keyOf);
            && (forall r :: r in seeked <==> r in rows && After(collate, keyOf, cursor, r))
            && Increasing(ByKey(collate, keyOf), seeked)
  {
    var cmp := ByKey(collate, keyOf);
    KeysOrder(collate, keyOf, query, rows);
    SortFacts(cmp, rows);
    SortIncreasing(cmp, rows);
    if cursor.Some? {
      var past := PastCursor(collate, cursor.value, keyOf);
      FilterFacts(past, Sort(cmp, rows));
      FilterIncreasing(cmp, past, Sort(cmp, rows));
    }
  }

  lemma CutFacts<T(!new)>(cmp: (T, T) -> int, rows: seq<T>, limit: nat)
    requires Increasing(cmp, rows) && 0 < limit <= |rows|
    ensures Increasing(cmp, rows[..limit])
    ensures forall r :: r in rows[..limit] ==> r in rows && (r == rows[limit - 1] || cmp(r, rows[limit - 1]) < 0)
    ensures forall r :: r in rows && r !in rows[..limit] ==> cmp(rows[limit - 1], r) < 0
  {
    forall i | 0 <= i < limit ensures rows[i] in rows[..limit] {
      assert rows[..limit][i] == rows[i];
    }
    forall r | r in rows && r !in rows[..limit] ensures cmp(rows[limit - 1], r) < 0 {
      var i :| 0 <= i < |rows| && rows[i] == r;
      assert limit <= i;
    }
  }

  /** A page's rows, and what its cursor separates. */
  ghost predicate PageOk<T(!new)>(collate: Collation, keyOf: T -> SortKey, query: SortKey, rows: seq<T>,
                                  cursor: Option<SortKey>, page: Page<T>)
  {
    && Increasing(ByKey(collate, keyOf), page.data)
    && (forall r :: r in page.data ==> r in rows && After(collate, keyOf, cursor, r))
    && (forall r :: r in rows && After(collate, keyOf, cursor, r) ==>
         r in page.data || (page.next.Some? && After(collate, keyOf, page.next, r)))
    && (page.next.Some? ==> SameQuery(page.next.value, query) && page.data != [])
    && (page.next.Some? ==>
         forall r :: r in page.data ==> CompareSortKeys(collate, keyOf(r), page.next.value) <= 0)
  }

  /** Against the key of the row a page stops at: rows before it are at most it, rows behind it are after it. */
  lemma LastRowSplits<T(!new)>(collate: Collation, keyOf: T -> SortKey, query: SortKey, rows: seq<T>, last: T, r: T)
    requires IsCollation(collate) && Pageable(collate, keyOf, query, rows) && last in rows && r in rows
    ensures ByKey(collate, keyOf)(last, r) < 0 ==> CompareSortKeys(collate, keyOf(r), keyOf(last)) > 0
    ensures r == last || ByKey(collate, keyOf)(r, last) < 0 ==> CompareSortKeys(collate, keyOf(r), keyOf(last)) <= 0
  {
    CompareIsTotal(collate, keyOf(last), keyOf(r));
    CompareIsTotal(collate, keyOf(r), keyOf(last));
  }

  /** The key of the last row of a page separates the page from what is behind it. */
  lemma CutAtLast<T(!new)>(collate: Collation, keyOf: T -> SortKey, query: SortKey, rows: seq<T>, limit: nat,
                           seeked: seq<T>)
    requires IsCollation(collate) && Pageable(collate, keyOf, query, rows) && 0 < limit <= |seeked|
    requires Increasing(ByKey(collate, keyOf), seeked) && forall r :: r in seeked ==> r in rows
    ensures forall r :: r in seeked[..limit] ==>
              r in seeked && CompareSortKeys(collate, keyOf(r), keyOf(seeked[limit - 1])) <= 0
    ensures forall r :: r in seeked && r !in seeked[..limit] ==>
              CompareSortKeys(collate, keyOf(r), keyOf(seeked[limit - 1])) > 0
  {
    var last := seeked[limit - 1];
    CutFacts(ByKey(collate, keyOf), seeked, limit);
    forall r | r in seeked[..limit] ensures CompareSortKeys(collate, keyOf(r), keyOf(last)) <= 0 {
      LastRowSplits(collate, keyOf, query, rows, last, r);
    }
    forall r | r in seeked && r !in seeked[..limit] ensures CompareSortKeys(collate, keyOf(r), keyOf(last)) > 0 {
      LastRowSplits(collate, keyOf, query, rows, last, r);
    }
  }

  lemma FullPageFacts<T(!new)>(collate: Collation, keyOf: T -> SortKey, query: SortKey, rows: seq<T>,
                               cursor: Option<SortKey>, limit: nat, seeked: seq<T>)
    requires IsCollation(collate) && Pageable(collate, keyOf, query, rows) && 0 < limit < |seeked|
    requires Increasing(ByKey(collate, keyOf), seeked)
    requires forall r :: r in seeked <==> r in rows && After(collate, keyOf, cursor, r)
    ensures PageOk(collate, keyOf, query, rows, cursor, BuildPagination(seeked, limit, keyOf))
  {
    var page, last := BuildPagination(seeked, limit, keyOf), seeked[limit - 1];
    assert page == Page(seeked[..limit], true, Some(keyOf(last))) && last in seeked;
    assert Increasing(ByKey(collate, keyOf), page.data);
    CutAtLast(collate, keyOf, query, rows, limit, seeked);
    forall r | r in rows && After(collate, keyOf, cursor, r) && r !in page.data
      ensures After(collate, keyOf, page.next, r)
    {
      assert r in seeked;
    }
  }

  /** A page takes the rows after the cursor up to its own last row, and the next cursor is that row. */
  lemma PageFacts<T(!new)>(collate: Collation, keyOf: T -> SortKey, query: SortKey, rows: seq<T>,
                           cursor: Option<SortKey>, limit: nat)
    requires IsCollation(collate) && Pageable(collate, keyOf, query, rows) && limit > 0
    requires cursor.Some? ==> SameQuery(cursor.value, query)
    ensures PageOk(collate, keyOf, query, rows, cursor, Request(collate, rows, cursor, limit, keyOf))
  {
    SeekFacts(collate, keyOf, query, rows, cursor);
    var seeked := SortAndSeek(collate, rows, cursor, keyOf);
    if |seeked| > limit {
      FullPageFacts(collate, keyOf, query, rows, cursor, limit, seeked);
    }
  }

  // ---- A page in plain terms ----

  /** a stands before b in the direction of their query: by exact value or by text, then by tiebreak. */
  predicate Precedes(collate: Collation, a: SortKey, b: SortKey) {
    var values := match (a.value, b.value)
                  case (Whole(m), Whole(n)) => m - n
                  case (Text(x), Text(y)) => collate(x, y)
                  case _ => 0;
    if a.dir.Asc? then values < 0 || (values == 0 && collate(a.tiebreak, b.tiebreak) < 0)
    else values > 0 || (values == 0 && collate(a.tiebreak, b.tiebreak) > 0)
  }

  lemma PrecedesIsLess(collate: Collation, a: SortKey, b: SortKey)
    requires IsCollation(collate) && SameQuery(a, b)
    ensures Precedes(collate, a, b) <==> CompareSortKeys(collate, a, b) < 0
    ensures Precedes(collate, a, b) <==> CompareSortKeys(collate, b, a) > 0
  {
    CompareIsTotal(collate, a, b);
  }

  /** The row is still to come after the cursor. */
  predicate ToCome<T>(collate: Collation, keyOf: T -> SortKey, cursor: Option<SortKey>, r: T) {
    cursor.Some? ==> Precedes(collate, cursor.value, keyOf(r))
  }

  lemma ToComeIsAfter<T(!new)>(collate: Collation, keyOf: T -> SortKey, query: SortKey, rows: seq<T>,
                               cursor: Option<SortKey>, r: T)
    requires IsCollation(collate) && Pageable(collate, keyOf, query, rows) && r in rows
    requires cursor.Some? ==> SameQuery(cursor.value, query)
    ensures ToCome(collate, keyOf, cursor, r) <==> After(collate, keyOf, cursor, r)
  {
    if cursor.Some? {
      PrecedesIsLess(collate, cursor.value, keyOf(r));
    }
  }

  function KeyBefore<T>(collate: Collation, keyOf: T -> SortKey): (T, T) -> bool {
    (a: T, b: T) => Precedes(collate, keyOf(a), keyOf(b))
  }

  function KeyLater<T>(collate: Collation, keyOf: T -> SortKey, cursor: Option<SortKey>): T -> bool {
    (r: T) => ToCome(collate, keyOf, cursor, r)
  }

  /**
   A page's rows run in order and are the first of the later ones; there are more exactly when some later row is not
   shown, and then the next cursor is the last shown row's.
   */
  ghost predicate PageReads<T(!new)>(before: (T, T) -> bool, later: T -> bool, cursorOf: T -> SortKey, rows: seq<T>,
                                     limit: nat, page: Page<T>)
  {
    && (forall i, j :: 0 <= i < j < |page.data| ==> before(page.data[i], page.data[j]))
    && (forall r :: r in page.data ==> r in rows && later(r))
    && |page.data| <= limit
    && (forall r, d :: r in rows && later(r) && r !in page.data && d in page.data ==> before(d, r))
    && (page.hasMore <==> exists r :: r in rows && later(r) && r !in page.data)
    && (page.hasMore ==> |page.data| == limit)
    && (page.hasMore ==> page.data != [] && page.next == Some(cursorOf(page.data[|page.data| - 1])))
    && (!page.hasMore ==> page.next == None)
  }

  /** Cutting a list that runs strictly in order. */
  lemma CutReads<T(!new)>(before: (T, T) -> bool, later: T -> bool, cursorOf: T -> SortKey, rows: seq<T>, limit: nat,
                          seeked: seq<T>)
    requires limit > 0 && forall r :: r in seeked <==> r in rows && later(r)
    requires forall i, j :: 0 <= i < j < |seeked| ==> before(seeked[i], seeked[j]) && seeked[i] != seeked[j]
    ensures PageReads(before, later, cursorOf, rows, limit, BuildPagination(seeked, limit, cursorOf))
  {
    var page := BuildPagination(seeked, limit, cursorOf);
    assert forall k :: 0 <= k < |page.data| ==> page.data[k] == seeked[k] && page.data[k] in page.data && seeked[k] in seeked;
    forall r, d | r in rows && later(r) && r !in page.data && d in page.data ensures before(d, r) {
      assert r in seeked;
      var i :| 0 <= i < |seeked| && seeked[i] == r;
      var j :| 0 <= j < |page.data| && page.data[j] == d;
      assert i >= |page.data|;
    }
    if |seeked| > limit {
      assert seeked[limit] in seeked && forall k :: 0 <= k < limit ==> seeked[k] != seeked[limit];
    }
  }

  /** The same page read through relations that agree on the rows. */
  lemma ReadsAlike<T(!new)>(before: (T, T) -> bool, before': (T, T) -> bool, later: T -> bool, later': T -> bool,
                            cursorOf: T -> SortKey, cursorOf': T -> SortKey, rows: seq<T>, limit: nat, page: Page<T>)
    requires PageReads(before, later, cursorOf, rows, limit, page)
    requires forall a, b :: a in rows && b in rows ==> before(a, b) == before'(a, b)
    requires forall a :: a in rows ==> later(a) == later'(a) && cursorOf(a) == cursorOf'(a)
    ensures PageReads(before', later', cursorOf', rows, limit, page)
  {
    forall i, j | 0 <= i < j < |page.data| ensures before'(page.data[i], page.data[j]) {
      assert page.data[i] in page.data && page.data[j] in page.data;
      assert before(page.data[i], page.data[j]);
    }
  }

  /** A request's page reads in the order of the keys, from the rows to come after the cursor. */
  lemma PageInPlainTerms<T(!new)>(collate: Collation, keyOf: T -> SortKey, query: SortKey, rows: seq<T>,
                                  cursor: Option<SortKey>, limit: nat)
    requires IsCollation(collate) && Pageable(collate, keyOf, query, rows) && limit > 0
    requires cursor.Some? ==> SameQuery(cursor.value, query)
    ensures PageReads(KeyBefore(collate, keyOf), KeyLater(collate, keyOf, cursor), keyOf, rows, limit,
                      Request(collate, rows, cursor, limit, keyOf))
  {
    var before, later := KeyBefore(collate, keyOf), KeyLater(collate, keyOf, cursor);
    var seeked := SortAndSeek(collate, rows, cursor, keyOf);
    SeekFacts(collate, keyOf, query, rows, cursor);
    forall r | r in rows ensures later(r) <==> r in seeked {
      ToComeIsAfter(collate, keyOf, query, rows, cursor, r);
    }
    forall i, j | 0 <= i < j < |seeked| ensures before(seeked[i], seeked[j]) && seeked[i] != seeked[j] {
      assert seeked[i] in seeked && seeked[j] in seeked;
      assert ByKey(collate, keyOf)(seeked[i], seeked[j]) < 0;
      PrecedesIsLess(collate, keyOf(seeked[i]), keyOf(seeked[j]));
      CompareIsTotal(collate, keyOf(seeked[i]), keyOf(seeked[i]));
    }
    CutReads(before, later, keyOf, rows, limit, seeked);
  }

  // ---- Walks over a changing row set ----

  /** An endpoint: what it answers to its rows and a cursor. */
  type Endpoint<!T> = (seq<T>, Option<SortKey>) -> Page<T>

  function Shared<T>(collate: Collation, keyOf: T -> SortKey, limit: nat): Endpoint<T> {
    (rows, cursor) => Request(collate, rows, cursor, limit, keyOf)
  }

  /** The rows returned by following next_cursor; request i sees snapshots[i]. */
  function Walk<T>(endpoint: Endpoint<T>, snapshots: seq<seq<T>>, cursor: Option<SortKey>): seq<T> {
    if snapshots == [] then []
    else
      var page := endpoint(snapshots[0], cursor);
      page.data + if page.next.None? then [] else Walk(endpoint, snapshots[1..], page.next)
  }

  /** The walk reaches a page without a next cursor. */
  predicate Ends<T>(endpoint: Endpoint<T>, snapshots: seq<seq<T>>, cursor: Option<SortKey>) {
    snapshots != [] &&
    var next := endpoint(snapshots[0], cursor).next;
    next.None? || Ends(endpoint, snapshots[1..], next)
  }

  ghost predicate AllPageable<T(!new)>(collate: Collation, keyOf: T -> SortKey, query: SortKey, snapshots: seq<seq<T>>) {
    forall s :: s in snapshots ==> Pageable(collate, keyOf, query, s)
  }

  /** The walk so far: increasing keys, all after the cursor, all from some request's rows. */
  ghost predicate WalkOk<T(!new)>(collate: Collation, keyOf: T -> SortKey, snapshots: seq<seq<T>>,
                                  cursor: Option<SortKey>, walk: seq<T>)
  {
    && Increasing(ByKey(collate, keyOf), walk)
    && (forall r :: r in walk ==> After(collate, keyOf, cursor, r))
    && (forall r :: r in walk ==> exists s :: s in snapshots && r in s)
  }

  lemma PageThenRest<T(!new)>(collate: Collation, keyOf: T -> SortKey, query: SortKey, snapshots: seq<seq<T>>,
                              cursor: Option<SortKey>, page: Page<T>, rest: seq<T>)
    requires IsCollation(collate) && snapshots != [] && AllPageable(collate, keyOf, query, snapshots)
    requires cursor.Some? ==> SameQuery(cursor.value, query)
    requires PageOk(collate, keyOf, query, snapshots[0], cursor, page) && page.next.Some?
    requires WalkOk(collate, keyOf, snapshots[1..], page.next, rest)
    ensures WalkOk(collate, keyOf, snapshots, cursor, page.data + rest)
  {
    assert snapshots[0] in snapshots && forall s :: s in snapshots[1..] ==> s in snapshots;
    forall y | y in rest
      ensures SameQuery(keyOf(y), query)
      ensures forall x :: x in page.data ==> CompareSortKeys(collate, keyOf(x), keyOf(y)) < 0
    {
      var s :| s in snapshots[1..] && y in s;
      forall x | x in page.data ensures CompareSortKeys(collate, keyOf(x), keyOf(y)) < 0 {
        BetweenPages(collate, keyOf(x), page.next.value, keyOf(y));
      }
    }
    forall y | y in rest ensures After(collate, keyOf, cursor, y) {
      if cursor.Some? {
        var x := page.data[0];
        assert x in page.data && After(collate, keyOf, cursor, x);
        AfterIsUpward(collate, cursor.value, keyOf(x), keyOf(y));
      }
    }
    AppendIncreasing(ByKey(collate, keyOf), page.data, rest);
  }

  lemma AfterIsUpward(collate: Collation, cut: SortKey, x: SortKey, y: SortKey)
    requires IsCollation(collate) && SameQuery(x, cut) && SameQuery(y, cut)
    requires CompareSortKeys(collate, x, cut) > 0 && CompareSortKeys(collate, x, y) < 0
    ensures CompareSortKeys(collate, y, cut) > 0
  {
    CompareIsTotal(collate, cut, x);
    CompareIsTransitive(collate, cut, x, y);
    CompareIsTotal(collate, cut, y);
  }

  /** Whatever is inserted or deleted between requests, the keys returned strictly increase across the whole walk. */
  lemma {:induction false} WalkIncreases<T(!new)>(collate: Collation, keyOf: T -> SortKey, query: SortKey, limit: nat,
                                                  snapshots: seq<seq<T>>, cursor: Option<SortKey>)
    requires IsCollation(collate) && AllPageable(collate, keyOf, query, snapshots) && limit > 0
    requires cursor.Some? ==> SameQuery(cursor.value, query)
    ensures WalkOk(collate, keyOf, snapshots, cursor, Walk(Shared(collate, keyOf, limit), snapshots, cursor))
    decreases |snapshots|
  {
    if snapshots != [] {
      assert snapshots[0] in snapshots;
      PageFacts(collate, keyOf, query, snapshots[0], cursor, limit);
      var page := Request(collate, snapshots[0], cursor, limit, keyOf);
      if page.next.Some? {
        assert forall s :: s in snapshots[1..] ==> s in snapshots;
        WalkIncreases(collate, keyOf, query, limit, snapshots[1..], page.next);
        PageThenRest(collate, keyOf, query, snapshots, cursor, page,
                     Walk(Shared(collate, keyOf, limit), snapshots[1..], page.next));
      } else {
        assert page.data + [] == page.data;
      }
    }
  }

  lemma BetweenPages(collate: Collation, x: SortKey, cut: SortKey, y: SortKey)
    requires IsCollation(collate) && SameQuery(x, cut) && SameQuery(cut, y)
    requires CompareSortKeys(collate, x, cut) <= 0 && CompareSortKeys(collate, y, cut) > 0
    ensures CompareSortKeys(collate, x, y) < 0
  {
    CompareIsTotal(collate, cut, y);
    CompareIsTransitive(collate, x, cut, y);
  }

  /** Some row of the list carries the key. */
  ghost predicate Carries<T(!new)>(keyOf: T -> SortKey, rows: seq<T>, key: SortKey) {
    exists r :: r in rows && keyOf(r) == key
  }

  /** A row the page leaves behind is after the page's next cursor. */
  lemma LeftForLater<T(!new)>(collate: Collation, keyOf: T -> SortKey, query: SortKey, rows: seq<T>,
                              cursor: Option<SortKey>, page: Page<T>, key: SortKey)
    requires PageOk(collate, keyOf, query, rows, cursor, page)
    requires Carries(keyOf, rows, key) && !Carries(keyOf, page.data, key)
    requires cursor.Some? ==> CompareSortKeys(collate, key, cursor.value) > 0
    ensures page.next.Some? && SameQuery(page.next.value, query) && CompareSortKeys(collate, key, page.next.value) > 0
  {
    var r :| r in rows && keyOf(r) == key;
    assert After(collate, keyOf, cursor, r) && r !in page.data;
  }

  lemma CarriesEither<T(!new)>(keyOf: T -> SortKey, a: seq<T>, b: seq<T>, key: SortKey)
    ensures Carries(keyOf, a + b, key) <==> Carries(keyOf, a, key) || Carries(keyOf, b, key)
  {
    assert forall r :: r in a || r in b ==> r in a + b;
  }

  lemma {:induction false} WalkFinds<T(!new)>(collate: Collation, keyOf: T -> SortKey, query: SortKey, limit: nat,
                                              snapshots: seq<seq<T>>, cursor: Option<SortKey>, key: SortKey)
    requires IsCollation(collate) && AllPageable(collate, keyOf, query, snapshots) && limit > 0
    requires cursor.Some? ==> SameQuery(cursor.value, query)
    requires Ends(Shared(collate, keyOf, limit), snapshots, cursor)
    requires forall s :: s in snapshots ==> Carries(keyOf, s, key)
    requires cursor.Some? ==> CompareSortKeys(collate, key, cursor.value) > 0
    ensures Carries(keyOf, Walk(Shared(collate, keyOf, limit), snapshots, cursor), key)
    decreases |snapshots|
  {
    assert snapshots[0] in snapshots;
    PageFacts(collate, keyOf, query, snapshots[0], cursor, limit);
    var page := Request(collate, snapshots[0], cursor, limit, keyOf);
    if !Carries(keyOf, page.data, key) {
      LeftForLater(collate, keyOf, query, snapshots[0], cursor, page, key);
      assert forall s :: s in snapshots[1..] ==> s in snapshots;
      WalkFinds(collate, keyOf, query, limit, snapshots[1..], page.next, key);
    }
    var rest := if page.next.None? then [] else Walk(Shared(collate, keyOf, limit), snapshots[1..], page.next);
    CarriesEither(keyOf, page.data, rest, key);
  }

  /**
   A walk that ends returns every row that was there throughout with an unchanged key exactly once, whatever
   else about the row changed between requests.
   */
  lemma WalkReturnsEachRowOnce<T(!new)>(collate: Collation, keyOf: T -> SortKey, query: SortKey, limit: nat,
                                        snapshots: seq<seq<T>>, key: SortKey)
    requires IsCollation(collate) && AllPageable(collate, keyOf, query, snapshots) && limit > 0
    requires Ends(Shared(collate, keyOf, limit), snapshots, None)
    requires forall s :: s in snapshots ==> Carries(keyOf, s, key)
    ensures var walk := Walk(Shared(collate, keyOf, limit), snapshots, None);
            && Carries(keyOf, walk, key)
            && forall i, j :: 0 <= i < j < |walk| ==> keyOf(walk[i]) != keyOf(walk[j])
  {
    var walk := Walk(Shared(collate, keyOf, limit), snapshots, None);
    WalkIncreases(collate, keyOf, query, limit, snapshots, None);
    WalkFinds(collate, keyOf, query, limit, snapshots, None, key);
    forall i, j | 0 <= i < j < |walk| ensures keyOf(walk[i]) != keyOf(walk[j]) {
      assert walk[i] in walk;
      var s :| s in snapshots && walk[i] in s;
      CompareIsTotal(collate, keyOf(walk[i]), keyOf(walk[i]));
    }
  }

  // ---- Walks over a fixed row set ----

  function PagesNeeded(n: nat, limit: nat): nat
    requires limit > 0
  {
    if n <= limit then 1 else 1 + PagesNeeded(n - limit, limit)
  }

  /** max(1, ceil(n / limit)): enough pages, and one page fewer would not do. */
  lemma {:induction false} PagesNeededIsCeiling(n: nat, limit: nat)
    requires limit > 0
    ensures var p := PagesNeeded(n, limit);
            1 <= p && n <= p * limit && (p > 1 ==> (p - 1) * limit < n)
  {
    if n > limit {
      PagesNeededIsCeiling(n - limit, limit);
      var p := PagesNeeded(n - limit, limit);
      assert (p + 1) * limit == p * limit + limit;
      assert p * limit == (p - 1) * limit + limit;
    }
  }

  function Copies<T>(rows: seq<T>, k: nat): seq<seq<T>> {
    seq(k, _ => rows)
  }

  /** The cursor after the first i rows of the sorted list. */
  function CursorAt<T>(keyOf: T -> SortKey, sorted: seq<T>, i: nat): Option<SortKey>
    requires i <= |sorted|
  {
    if i == 0 then None else Some(keyOf(sorted[i - 1]))
  }

  lemma SortedFacts<T(!new)>(collate: Collation, keyOf: T -> SortKey, query: SortKey, rows: seq<T>)
    requires IsCollation(collate) && Pageable(collate, keyOf, query, rows)
    ensures var sorted, cmp := Sort(ByKey(collate, keyOf), rows), ByKey(collate, keyOf);
            |sorted| == |rows| && Increasing(cmp, sorted) && Orders(cmp, sorted)
    ensures forall r :: r in Sort(ByKey(collate, keyOf), rows) <==> r in rows
  {
    KeysOrder(collate, keyOf, query, rows);
    SortFacts(ByKey(collate, keyOf), rows);
    SortIncreasing(ByKey(collate, keyOf), rows);
  }

  /** Exact values run up in an ascending list and down in a descending one; equal values run by tiebreak likewise. */
  lemma SortedInDirection<T(!new)>(collate: Collation, keyOf: T -> SortKey, query: SortKey, rows: seq<T>, i: nat, j: nat)
    requires IsCollation(collate) && Pageable(collate, keyOf, query, rows) && !query.kind.Time? && i < j < |rows|
    ensures var sorted := Sort(ByKey(collate, keyOf), rows);
            |sorted| == |rows| &&
            var a, b := keyOf(sorted[i]), keyOf(sorted[j]);
            && a.value.Whole? && b.value.Whole?
            && (query.dir.Asc? ==> a.value.n <= b.value.n) && (query.dir.Desc? ==> a.value.n >= b.value.n)
            && (a.value == b.value ==> (collate(a.tiebreak, b.tiebreak) < 0 <==> query.dir.Asc?))
  {
    SortedFacts(collate, keyOf, query, rows);
    var sorted := Sort(ByKey(collate, keyOf), rows);
    assert sorted[i] in sorted && sorted[j] in sorted;
    assert ByKey(collate, keyOf)(sorted[i], sorted[j]) < 0;
  }

  lemma PastIsAfterRow<T>(collate: Collation, keyOf: T -> SortKey, query: SortKey, last: T, r: T)
    requires SameQuery(keyOf(last), query) && SameQuery(keyOf(r), query)
    ensures PastCursor(collate, keyOf(last), keyOf)(r) <==> ByKey(collate, keyOf)(r, last) > 0
  {
    assert keyOf(r).(dir := keyOf(last).dir) == keyOf(r);
  }

  /** Seeking from the key of a row of the sorted list leaves what follows it. */
  lemma SeekFromRow<T(!new)>(collate: Collation, keyOf: T -> SortKey, query: SortKey, sorted: seq<T>, i: nat)
    requires i < |sorted| && forall r :: r in sorted ==> SameQuery(keyOf(r), query)
    requires Increasing(ByKey(collate, keyOf), sorted) && Orders(ByKey(collate, keyOf), sorted)
    ensures Filter(PastCursor(collate, keyOf(sorted[i]), keyOf), sorted) == sorted[i + 1..]
  {
    var past := PastCursor(collate, keyOf(sorted[i]), keyOf);
    forall r | r in sorted ensures past(r) <==> ByKey(collate, keyOf)(r, sorted[i]) > 0 {
      PastIsAfterRow(collate, keyOf, query, sorted[i], r);
    }
    SeekPast(ByKey(collate, keyOf), sorted, i, past);
  }

  lemma SeekIsSuffix<T(!new)>(collate: Collation, keyOf: T -> SortKey, query: SortKey, rows: seq<T>, i: nat)
    requires IsCollation(collate) && Pageable(collate, keyOf, query, rows) && i <= |rows|
    ensures var sorted := Sort(ByKey(collate, keyOf), rows);
            |sorted| == |rows| && SortAndSeek(collate, rows, CursorAt(keyOf, sorted, i), keyOf) == sorted[i..]
  {
    SortedFacts(collate, keyOf, query, rows);
    if i > 0 {
      SeekFromRow(collate, keyOf, query, Sort(ByKey(collate, keyOf), rows), i - 1);
    }
  }

  /** One request over a fixed row set takes the next rows of the sorted list. */
  lemma FixedPage<T(!new)>(collate: Collation, keyOf: T -> SortKey, query: SortKey, limit: nat, rows: seq<T>, i: nat)
    requires IsCollation(collate) && Pageable(collate, keyOf, query, rows) && limit > 0
    requires i <= |rows| && (i < |rows| || i == 0)
    ensures |Sort(ByKey(collate, keyOf), rows)| == |rows|
    ensures var sorted := Sort(ByKey(collate, keyOf), rows);
            var page := Request(collate, rows, CursorAt(keyOf, sorted, i), limit, keyOf);
            if |rows| - i <= limit then page.data == sorted[i..] && page.next == None
            else page.data == sorted[i..i + limit] && page.next == CursorAt(keyOf, sorted, i + limit)
  {
    SeekIsSuffix(collate, keyOf, query, rows, i);
    SuffixPage(Sort(ByKey(collate, keyOf), rows), i, limit, keyOf);
  }

  lemma SuffixPage<T>(sorted: seq<T>, i: nat, limit: nat, keyOf: T -> SortKey)
    requires i <= |sorted| && (i < |sorted| || i == 0) && limit > 0
    ensures var page := BuildPagination(sorted[i..], limit, keyOf);
            if |sorted| - i <= limit then page.data == sorted[i..] && page.next == None
            else page.data == sorted[i..i + limit] && page.next == CursorAt(keyOf, sorted, i + limit)
  {
    if |sorted| - i > limit {
      assert sorted[i..][..limit] == sorted[i..i + limit];
    }
  }

  /** Asked from place i of the sorted list, the endpoint answers the next slice. */
  ghost predicate SliceAt<T>(endpoint: Endpoint<T>, keyOf: T -> SortKey, limit: nat, rows: seq<T>, sorted: seq<T>, i: nat)
    requires i <= |sorted|
  {
    var page := endpoint(rows, CursorAt(keyOf, sorted, i));
    if |sorted| - i <= limit then page.data == sorted[i..] && page.next == None
    else page.data == sorted[i..i + limit] && page.next == CursorAt(keyOf, sorted, i + limit)
  }

  /** Over these rows, the endpoint's pages are the consecutive slices of the sorted list. */
  ghost predicate Slices<T>(endpoint: Endpoint<T>, keyOf: T -> SortKey, limit: nat, rows: seq<T>, sorted: seq<T>) {
    forall i: nat {:trigger SliceAt(endpoint, keyOf, limit, rows, sorted, i)} ::
      i < |sorted| || i == 0 ==> SliceAt(endpoint, keyOf, limit, rows, sorted, i)
  }

  lemma SharedSlices<T(!new)>(collate: Collation, keyOf: T -> SortKey, query: SortKey, limit: nat, rows: seq<T>)
    requires IsCollation(collate) && Pageable(collate, keyOf, query, rows) && limit > 0
    ensures |Sort(ByKey(collate, keyOf), rows)| == |rows|
    ensures Slices(Shared(collate, keyOf, limit), keyOf, limit, rows, Sort(ByKey(collate, keyOf), rows))
  {
    FixedPage(collate, keyOf, query, limit, rows, 0);
    var sorted := Sort(ByKey(collate, keyOf), rows);
    forall i: nat | i < |sorted| || i == 0
      ensures SliceAt(Shared(collate, keyOf, limit), keyOf, limit, rows, sorted, i)
    {
      SharedSlice(collate, keyOf, query, limit, rows, i);
    }
  }

  lemma SharedSlice<T(!new)>(collate: Collation, keyOf: T -> SortKey, query: SortKey, limit: nat, rows: seq<T>, i: nat)
    requires IsCollation(collate) && Pageable(collate, keyOf, query, rows) && limit > 0
    requires i <= |rows| && (i < |rows| || i == 0)
    ensures var sorted := Sort(ByKey(collate, keyOf), rows);
            |sorted| == |rows| && SliceAt(Shared(collate, keyOf, limit), keyOf, limit, rows, sorted, i)
  {
    FixedPage(collate, keyOf, query, limit, rows, i);
  }

  lemma SlicesJoin<T>(s: seq<T>, i: nat, j: nat)
    requires i <= j <= |s|
    ensures s[i..j] + s[j..] == s[i..]
  {
  }

  /** From any point of the sorted list, the walk ends exactly when it is given enough pages, and returns the rest. */
  lemma {:induction false} FixedWalkFrom<T(!new)>(endpoint: Endpoint<T>, keyOf: T -> SortKey, limit: nat, rows: seq<T>,
                                                  sorted: seq<T>, i: nat, k: nat)
    requires Slices(endpoint, keyOf, limit, rows, sorted) && limit > 0
    requires i < |sorted| || i == 0
    ensures var cursor := CursorAt(keyOf, sorted, i);
            Ends(endpoint, Copies(rows, k), cursor) <==> PagesNeeded(|sorted| - i, limit) <= k
    ensures PagesNeeded(|sorted| - i, limit) <= k ==>
              Walk(endpoint, Copies(rows, k), CursorAt(keyOf, sorted, i)) == sorted[i..]
    decreases k
  {
    if k > 0 {
      assert SliceAt(endpoint, keyOf, limit, rows, sorted, i);
      var copies := Copies(rows, k);
      assert copies[1..] == Copies(rows, k - 1) && copies[0] == rows && copies != [];
      if |sorted| - i > limit {
        FixedWalkFrom(endpoint, keyOf, limit, rows, sorted, i + limit, k - 1);
        SlicesJoin(sorted, i, i + limit);
        assert PagesNeeded(|sorted| - i, limit) == 1 + PagesNeeded(|sorted| - (i + limit), limit);
      } else {
        assert sorted[i..] + [] == sorted[i..];
      }
    }
  }

  lemma WholeWalk<T(!new)>(endpoint: Endpoint<T>, keyOf: T -> SortKey, limit: nat, rows: seq<T>, sorted: seq<T>, k: nat)
    requires Slices(endpoint, keyOf, limit, rows, sorted) && limit > 0
    ensures Ends(endpoint, Copies(rows, k), None) <==> PagesNeeded(|sorted|, limit) <= k
    ensures PagesNeeded(|sorted|, limit) <= k ==> Walk(endpoint, Copies(rows, k), None) == sorted
  {
    FixedWalkFrom(endpoint, keyOf, limit, rows, sorted, 0, k);
    assert sorted[0..] == sorted;
  }

  /** Over a fixed row set the walk takes exactly max(1, ceil(n / limit)) pages and returns the sorted list. */
  lemma FixedWalk<T(!new)>(collate: Collation, keyOf: T -> SortKey, query: SortKey, limit: nat, rows: seq<T>, k: nat)
    requires IsCollation(collate) && Pageable(collate, keyOf, query, rows) && limit > 0
    ensures var pages, endpoint := PagesNeeded(|rows|, limit), Shared(collate, keyOf, limit);
            && (Ends(endpoint, Copies(rows, k), None) <==> pages <= k)
            && (pages <= k ==> Walk(endpoint, Copies(rows, k), None) == Sort(ByKey(collate, keyOf), rows))
  {
    SharedSlices(collate, keyOf, query, limit, rows);
    WholeWalk(Shared(collate, keyOf, limit), keyOf, limit, rows, Sort(ByKey(collate, keyOf), rows), k);
  }
}
