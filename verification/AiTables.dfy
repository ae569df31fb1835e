/**
 The durable tables of one AI feature — open batches, backfill cursor, outputs, dead letters, cost ledger —
 and the transaction that drains a finished batch. Every statement filters by feature, so one feature's
 rows are all a driver ever sees.
 */
module AiTables {
  import opened Wrappers

  type RowId = int
  type CacheKey = int
  type BatchId = int

  /** A batch item: its customId is an injective image of the row, its key the ai_output lookup key. */
  datatype Item = Item(row: RowId, key: CacheKey)

  /** pending is the backfill position to commit when the batch drains; the live drivers leave it None. */
  datatype Batch = Batch(id: BatchId, items: seq<Item>, pending: Option<RowId>)

  /** One result of the provider; valid tells whether it passes the feature's schema. */
  datatype ItemResult = ItemResult(row: RowId, valid: bool, cost: nat)

  /** A ledger row, remembering the batch it was paid for (None for an inline skip). */
  datatype CostRow = CostRow(batch: Option<BatchId>, row: RowId, cost: nat)

  datatype Tables = Tables(
    open: seq<Batch>,
    cursor: Option<RowId>,
    outputs: set<CacheKey>,
    deadLetters: set<CacheKey>,
    ledger: seq<CostRow>)

  /** The descriptor a result belongs to; the Map built from the items keeps the last one per customId. */
  function Descriptor(items: seq<Item>, row: RowId): (r: Option<Item>)
    ensures r.Some? ==> r.value in items && r.value.row == row
    ensures r.None? ==> forall i :: i in items ==> i.row != row
    ensures r.Some? ==> exists k :: 0 <= k < |items| && items[k] == r.value &&
                                    forall j :: k < j < |items| ==> items[j].row != row
  {
    if items == [] then None
    else if items[|items| - 1].row == row then Some(items[|items| - 1])
    else Descriptor(items[..|items| - 1], row)
  }

  /** persistBatchItemResult: an output or a dead letter, and one ledger row either way. */
  function Persist(t: Tables, id: BatchId, item: Item, result: ItemResult): Tables {
    var paid := t.(ledger := t.ledger + [CostRow(Some(id), item.row, result.cost)]);
    if result.valid then paid.(outputs := paid.outputs + {item.key})
    else paid.(deadLetters := paid.deadLetters + {item.key})
  }

  /** The loop over results; a result without a descriptor is skipped. */
  function PersistAll(t: Tables, b: Batch, results: seq<ItemResult>): Tables {
    if results == [] then t
    else
      var before := PersistAll(t, b, results[..|results| - 1]);
      var last := results[|results| - 1];
      match Descriptor(b.items, last.row)
      case Some(item) => Persist(before, b.id, item, last)
      case None => before
  }

  predicate Returned(results: seq<ItemResult>, row: RowId) {
    exists r :: r in results && r.row == row
  }

  predicate Complete(b: Batch, results: seq<ItemResult>) {
    forall i :: i in b.items ==> Returned(results, i.row)
  }

  function WithoutBatch(open: seq<Batch>, id: BatchId): seq<Batch> {
    if open == [] then []
    else if open[0].id == id then WithoutBatch(open[1..], id)
    else [open[0]] + WithoutBatch(open[1..], id)
  }

  /** The drain transaction: persist every result, move the cursor only past a complete page, delete the row. */
  function Commit(t: Tables, b: Batch, results: seq<ItemResult>): Tables {
    var persisted := PersistAll(t, b, results);
    persisted.(cursor := if b.pending.Some? && Complete(b, results) then b.pending else persisted.cursor,
               open := WithoutBatch(persisted.open, b.id))
  }

  // ---- What a drain writes ----

  lemma {:induction false} PersistAllFrame(t: Tables, b: Batch, results: seq<ItemResult>)
    ensures var t' := PersistAll(t, b, results);
            t'.open == t.open && t'.cursor == t.cursor && t.outputs <= t'.outputs && t.deadLetters <= t'.deadLetters
    decreases |results|
  {
    if results != [] {
      PersistAllFrame(t, b, results[..|results| - 1]);
    }
  }

  /** Every returned item of the batch ends as an output or a dead letter. */
  lemma {:induction false} ReturnedIsPersisted(t: Tables, b: Batch, results: seq<ItemResult>, item: Item)
    requires item in b.items && Returned(results, item.row)
    requires forall i, j :: i in b.items && j in b.items && i.row == j.row ==> i.key == j.key
    ensures var t' := PersistAll(t, b, results); item.key in t'.outputs || item.key in t'.deadLetters
    decreases |results|
  {
    var init, last := results[..|results| - 1], results[|results| - 1];
    if last.row != item.row {
      assert forall r :: r in results ==> r in init || r == last;
      assert Returned(init, item.row);
      ReturnedIsPersisted(t, b, init, item);
    }
  }

  /** A valid result that belongs to an item with this key. */
  predicate Answers(b: Batch, r: ItemResult, key: CacheKey) {
    r.valid && Descriptor(b.items, r.row).Some? && Descriptor(b.items, r.row).value.key == key
  }

  predicate AnswersSome(b: Batch, results: seq<ItemResult>, key: CacheKey) {
    exists r :: r in results && Answers(b, r, key)
  }

  /** The outputs a drain adds are exactly the keys its valid results answer. */
  lemma {:induction false} OutputsAfter(t: Tables, b: Batch, results: seq<ItemResult>, key: CacheKey)
    ensures key in PersistAll(t, b, results).outputs <==> key in t.outputs || AnswersSome(b, results, key)
    decreases |results|
  {
    if results != [] {
      var init, last := results[..|results| - 1], results[|results| - 1];
      OutputsAfter(t, b, init, key);
      assert last in results && forall r :: r in results <==> r in init || r == last;
    }
  }

  lemma {:induction false} WithoutBatchFacts(open: seq<Batch>, id: BatchId)
    ensures forall b :: b in WithoutBatch(open, id) <==> b in open && b.id != id
  {
    if open != [] {
      WithoutBatchFacts(open[1..], id);
      assert open == [open[0]] + open[1..];
    }
  }

  lemma {:induction false} WithoutNewBatch(open: seq<Batch>, b: Batch)
    requires forall o :: o in open ==> o.id != b.id
    ensures WithoutBatch(open + [b], b.id) == open
  {
    if open == [] {
      assert [b][1..] == [];
    } else {
      assert (open + [b])[1..] == open[1..] + [b] && open[0] in open;
      assert forall o :: o in open[1..] ==> o in open;
      WithoutNewBatch(open[1..], b);
    }
  }

  /** Completeness is presence alone: a result that fails the schema counts as returned. */
  lemma CompleteMeans(b: Batch, results: seq<ItemResult>)
    ensures Complete(b, results) <==> forall i :: i in b.items ==> exists r :: r in results && r.row == i.row
  {
    assert forall row :: Returned(results, row) <==> exists r :: r in results && r.row == row;
  }

  /** The dead letters a drain adds are exactly the keys of the items with an invalid result. */
  lemma {:induction false} DeadLettersAfter(t: Tables, b: Batch, results: seq<ItemResult>, key: CacheKey)
    ensures key in PersistAll(t, b, results).deadLetters <==>
            key in t.deadLetters ||
            exists r :: r in results && !r.valid && Descriptor(b.items, r.row).Some?
                        && Descriptor(b.items, r.row).value.key == key
    decreases |results|
  {
    if results != [] {
      var init, last := results[..|results| - 1], results[|results| - 1];
      DeadLettersAfter(t, b, init, key);
      assert results == init + [last];
      assert forall r :: r in results <==> r in init || r == last;
    }
  }

  /**
   What a drain pays for: when every result belongs to an item, one ledger row for each, in order, with its row and
   its cost.
   */
  lemma {:induction false} LedgerAfter(t: Tables, b: Batch, results: seq<ItemResult>)
    requires forall r :: r in results ==> exists i :: i in b.items && i.row == r.row
    ensures PersistAll(t, b, results).ledger ==
            t.ledger + seq(|results|, k requires 0 <= k < |results| =>
                             CostRow(Some(b.id), results[k].row, results[k].cost))
    decreases |results|
  {
    if results != [] {
      var init, last := results[..|results| - 1], results[|results| - 1];
      assert last in results && forall r :: r in init ==> r in results;
      LedgerAfter(t, b, init);
      var before := seq(|init|, k requires 0 <= k < |init| => CostRow(Some(b.id), init[k].row, init[k].cost));
      assert seq(|results|, k requires 0 <= k < |results| =>
                   CostRow(Some(b.id), results[k].row, results[k].cost))
             == before + [CostRow(Some(b.id), last.row, last.cost)];
    }
  }

  /** A result that belongs to no item of the batch is passed over. */
  lemma StrangerIsSkipped(t: Tables, b: Batch, results: seq<ItemResult>, r: ItemResult)
    requires forall i :: i in b.items ==> i.row != r.row
    ensures PersistAll(t, b, results + [r]) == PersistAll(t, b, results)
  {
    assert (results + [r])[..|results|] == results;
  }

  /**
   What a record puts in, its drain takes out: the open batches are those from before, and the cursor stands at
   the batch's position exactly when it has one and for every item some result has its row, valid or not.
   */
  lemma DrainUndoesRecord(t: Tables, b: Batch, results: seq<ItemResult>)
    requires forall o :: o in t.open ==> o.id != b.id
    ensures var t' := Commit(t.(open := t.open + [b]), b, results);
            && t'.open == t.open
            && t'.cursor ==
               if b.pending.Some? && forall i :: i in b.items ==> exists r :: r in results && r.row == i.row
               then b.pending else t.cursor
  {
    CompleteMeans(b, results);
    PersistAllFrame(t.(open := t.open + [b]), b, results);
    WithoutNewBatch(t.open, b);
  }

  // ---- What a drain books ----

  /** The ledger rows paid for one batch. */
  function BookedFor(ledger: seq<CostRow>, id: BatchId): seq<CostRow> {
    if ledger == [] then []
    else
      var rest := BookedFor(ledger[..|ledger| - 1], id);
      if ledger[|ledger| - 1].batch == Some(id) then rest + [ledger[|ledger| - 1]] else rest
  }

  /** One ledger row for each returned result that has a descriptor, valid or not. */
  function Bookings(b: Batch, results: seq<ItemResult>): seq<CostRow> {
    if results == [] then []
    else
      var before := Bookings(b, results[..|results| - 1]);
      var last := results[|results| - 1];
      if Descriptor(b.items, last.row).Some? then before + [CostRow(Some(b.id), last.row, last.cost)] else before
  }

  lemma {:induction false} DrainBooks(t: Tables, b: Batch, results: seq<ItemResult>, id: BatchId)
    ensures BookedFor(PersistAll(t, b, results).ledger, id) ==
            BookedFor(t.ledger, id) + if id == b.id then Bookings(b, results) else []
    decreases |results|
  {
    if results != [] {
      var init, last := results[..|results| - 1], results[|results| - 1];
      DrainBooks(t, b, init, id);
      var before := PersistAll(t, b, init);
      if Descriptor(b.items, last.row).Some? {
        var row := CostRow(Some(b.id), last.row, last.cost);
        assert (before.ledger + [row])[..|before.ledger|] == before.ledger;
      }
    }
  }

  function CountFor(rows: seq<CostRow>, row: RowId): nat {
    if rows == [] then 0 else CountFor(rows[..|rows| - 1], row) + if rows[|rows| - 1].row == row then 1 else 0
  }

  /** At most one result per customId. */
  ghost predicate OnePerItem(results: seq<ItemResult>) {
    forall i, j :: 0 <= i < j < |results| ==> results[i].row != results[j].row
  }

  lemma CountPush(rows: seq<CostRow>, last: CostRow, row: RowId)
    ensures CountFor(rows + [last], row) == CountFor(rows, row) + if last.row == row then 1 else 0
  {
    assert (rows + [last])[..|rows|] == rows;
  }

  lemma LastIsNew(results: seq<ItemResult>)
    requires OnePerItem(results) && results != []
    ensures OnePerItem(results[..|results| - 1])
    ensures !Returned(results[..|results| - 1], results[|results| - 1].row)
    ensures forall row :: Returned(results, row) <==>
              Returned(results[..|results| - 1], row) || row == results[|results| - 1].row
  {
    var init, last := results[..|results| - 1], results[|results| - 1];
    forall r | r in init ensures r.row != last.row {
      var i :| 0 <= i < |init| && init[i] == r;
      assert results[i] == r;
    }
    assert forall r :: r in results <==> r in init || r == last;
  }

  /** A returned item of the batch is booked once; anything else is not booked. */
  lemma {:induction false} BookedOnce(b: Batch, results: seq<ItemResult>, row: RowId)
    requires OnePerItem(results)
    ensures CountFor(Bookings(b, results), row) ==
            if Returned(results, row) && Descriptor(b.items, row).Some? then 1 else 0
    decreases |results|
  {
    if results != [] {
      var init, last := results[..|results| - 1], results[|results| - 1];
      LastIsNew(results);
      BookedOnce(b, init, row);
      CountPush(Bookings(b, init), CostRow(Some(b.id), last.row, last.cost), row);
    }
  }
}
