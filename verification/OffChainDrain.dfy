/**
 The off-chain backfill drain: poll the listener from the stored cursor, deliver the page, store the cursor, and
 stop after enough ticks without progress. The listener is an adversary: tick n may return anything.
 */
module OffChainDrain {
  /** A cursor is its JSON text; two cursors are equal when their texts are. */
  type Cursor = string
  type Item = int
  datatype PollResult = PollResult(items: seq<Item>, next: Cursor)
  type Listener = nat -> PollResult
  datatype Status = Completed | Cancelled

  function CursorAfter(start: Cursor, poll: Listener, n: nat): Cursor {
    if n == 0 then start else poll(n - 1).next
  }

  predicate Advances(start: Cursor, poll: Listener, n: nat) {
    CursorAfter(start, poll, n) != CursorAfter(start, poll, n + 1)
  }

  /** How many of the last ticks before tick n, counted backwards, left the cursor where it was. */
  function Quiet(start: Cursor, poll: Listener, n: nat): nat {
    if n == 0 || Advances(start, poll, n - 1) then 0 else Quiet(start, poll, n - 1) + 1
  }

  function Changes(start: Cursor, poll: Listener, n: nat): nat {
    if n == 0 then 0 else Changes(start, poll, n - 1) + (if Advances(start, poll, n - 1) then 1 else 0)
  }

  function ItemsOf(poll: Listener, n: nat): seq<Item> {
    if n == 0 then [] else ItemsOf(poll, n - 1) + poll(n - 1).items
  }

  /** The drain stops before tick n: aborted, or quiet for long enough. */
  predicate StopsAt(start: Cursor, poll: Listener, aborted: nat -> bool, quiescenceTicks: nat, n: nat) {
    aborted(n) || Quiet(start, poll, n) >= quiescenceTicks
  }

  /** While the drain has not gone quiet, few ticks have passed per change of the cursor. */
  lemma {:induction false} TicksPerChange(start: Cursor, poll: Listener, quiescenceTicks: nat, n: nat)
    requires forall m :: 0 <= m < n ==> Quiet(start, poll, m) < quiescenceTicks
    ensures n <= Changes(start, poll, n) * quiescenceTicks + Quiet(start, poll, n)
  {
    if n > 0 {
      TicksPerChange(start, poll, quiescenceTicks, n - 1);
      var before := Changes(start, poll, n - 1);
      assert (before + 1) * quiescenceTicks == before * quiescenceTicks + quiescenceTicks;
    }
  }

  lemma MoreChanges(a: nat, b: nat, k: nat)
    requires a <= b
    ensures a * k <= b * k
  {
  }

  class Producer {
    var delivered: seq<Item>
    var stored: Cursor

    constructor (cursor: Cursor)
      ensures delivered == [] && stored == cursor
    {
      delivered, stored := [], cursor;
    }

    method CommitTick(items: seq<Item>, next: Cursor)
      modifies this
      ensures delivered == old(delivered) + items && stored == next
    {
      assert items[..0] == [];
      for i := 0 to |items|
        invariant delivered == old(delivered) + items[..i]
      {
        assert items[..i + 1] == items[..i] + [items[i]];
        delivered := delivered + [items[i]];
      }
      assert items[..|items|] == items;
      stored := next;
    }
  }

  /** The drain goes through all of its first ticks. */
  ghost predicate RunsFor(start: Cursor, poll: Listener, aborted: nat -> bool, quiescenceTicks: nat, ticks: nat) {
    forall m :: 0 <= m < ticks ==> !StopsAt(start, poll, aborted, quiescenceTicks, m)
  }

  /** The drain stops at some tick: it goes quiet, or it is aborted. */
  ghost predicate Stops(start: Cursor, poll: Listener, aborted: nat -> bool, quiescenceTicks: nat) {
    exists n: nat :: StopsAt(start, poll, aborted, quiescenceTicks, n)
  }

  /**
   A drain that ever stops does so at the first tick where it may, having delivered every polled item in order and
   stored the last cursor. The signal is read once more after the loop, at a later moment: an abort that arrives in
   between cancels a drain that had gone quiet. A signal that was raised stays raised.
   */
  method RunOffChainDrain(producer: Producer, poll: Listener, aborted: nat -> bool, abortedAfter: nat -> bool,
                          quiescenceTicks: nat)
    returns (status: Status, ticks: nat, itemsProcessed: nat)
    requires Stops(producer.stored, poll, aborted, quiescenceTicks)
    requires forall n :: aborted(n) ==> abortedAfter(n)
    modifies producer
    ensures StopsAt(old(producer.stored), poll, aborted, quiescenceTicks, ticks)
    ensures RunsFor(old(producer.stored), poll, aborted, quiescenceTicks, ticks)
    ensures status.Cancelled? <==> abortedAfter(ticks)
    ensures status.Completed? ==> Quiet(old(producer.stored), poll, ticks) >= quiescenceTicks
    ensures producer.delivered == old(producer.delivered) + ItemsOf(poll, ticks)
    ensures producer.stored == CursorAfter(old(producer.stored), poll, ticks)
    ensures itemsProcessed == |ItemsOf(poll, ticks)|
  {
    ghost var start := producer.stored;
    ghost var last: nat :| StopsAt(start, poll, aborted, quiescenceTicks, last);
    var cursor := producer.stored;
    var quiescent := 0;
    ticks, itemsProcessed := 0, 0;
    while !aborted(ticks) && quiescent < quiescenceTicks
      invariant cursor == producer.stored == CursorAfter(start, poll, ticks)
      invariant quiescent == Quiet(start, poll, ticks)
      invariant RunsFor(start, poll, aborted, quiescenceTicks, ticks)
      invariant producer.delivered == old(producer.delivered) + ItemsOf(poll, ticks)
      invariant itemsProcessed == |ItemsOf(poll, ticks)|
      decreases last - ticks
    {
      var result := poll(ticks);
      producer.CommitTick(result.items, result.next);
      assert (old(producer.delivered) + ItemsOf(poll, ticks)) + result.items ==
             old(producer.delivered) + (ItemsOf(poll, ticks) + result.items);
      ticks := ticks + 1;
      itemsProcessed := itemsProcessed + |result.items|;
      var advanced := cursor != result.next;
      cursor := result.next;
      if !advanced {
        quiescent := quiescent + 1;
      } else {
        quiescent := 0;
      }
    }
    status := if abortedAfter(ticks) then Cancelled else Completed;
  }

  lemma WithinBound(start: Cursor, poll: Listener, aborted: nat -> bool, quiescenceTicks: nat, maxChanges: nat, n: nat)
    requires forall m :: 0 <= m <= n ==> !StopsAt(start, poll, aborted, quiescenceTicks, m)
    requires Changes(start, poll, n) <= maxChanges
    ensures n < (maxChanges + 1) * quiescenceTicks
  {
    assert forall m :: 0 <= m <= n ==> !StopsAt(start, poll, aborted, quiescenceTicks, m) ==>
      Quiet(start, poll, m) < quiescenceTicks;
    TicksPerChange(start, poll, quiescenceTicks, n);
    MoreChanges(Changes(start, poll, n), maxChanges, quiescenceTicks);
    assert (maxChanges + 1) * quiescenceTicks == maxChanges * quiescenceTicks + quiescenceTicks;
  }

  /** When the cursor changes at most A times, the drain stops, aborted or not, within (A + 1) K ticks. */
  lemma DrainStopsInTime(start: Cursor, poll: Listener, aborted: nat -> bool, quiescenceTicks: nat, maxChanges: nat)
    requires forall n :: Changes(start, poll, n) <= maxChanges
    ensures Stops(start, poll, aborted, quiescenceTicks)
    ensures forall ticks: nat :: RunsFor(start, poll, aborted, quiescenceTicks, ticks) ==>
              ticks <= (maxChanges + 1) * quiescenceTicks
  {
    var bound := (maxChanges + 1) * quiescenceTicks;
    if forall m :: 0 <= m <= bound ==> !StopsAt(start, poll, aborted, quiescenceTicks, m) {
      WithinBound(start, poll, aborted, quiescenceTicks, maxChanges, bound);
    }
  }

  // ---- The bound is reached ----

  /** Distinct cursors for distinct numbers. */
  function Numbered(k: nat): (c: Cursor)
    ensures |c| == k
  {
    seq(k, _ => 'x')
  }

  /** How often the cursor has moved by tick n, moving every quiescenceTicks ticks until it has moved often enough. */
  function Moves(maxChanges: nat, quiescenceTicks: nat, n: nat): nat {
    if n == 0 then 0
    else
      var before := Moves(maxChanges, quiescenceTicks, n - 1);
      if before < maxChanges && n == (before + 1) * quiescenceTicks then before + 1 else before
  }

  function LateListener(maxChanges: nat, quiescenceTicks: nat): Listener {
    (n: nat) => PollResult([], Numbered(Moves(maxChanges, quiescenceTicks, n + 1)))
  }

  lemma {:induction false} LateListenerFacts(maxChanges: nat, quiescenceTicks: nat, n: nat)
    requires quiescenceTicks > 0
    ensures var poll, start, moves := LateListener(maxChanges, quiescenceTicks), Numbered(0),
                                      Moves(maxChanges, quiescenceTicks, n);
            && CursorAfter(start, poll, n) == Numbered(moves) && Changes(start, poll, n) == moves <= maxChanges
            && moves * quiescenceTicks + Quiet(start, poll, n) == n
            && (moves < maxChanges ==> Quiet(start, poll, n) < quiescenceTicks)
  {
    if n > 0 {
      LateListenerFacts(maxChanges, quiescenceTicks, n - 1);
      var before := Moves(maxChanges, quiescenceTicks, n - 1);
      assert (before + 1) * quiescenceTicks == before * quiescenceTicks + quiescenceTicks;
      assert |Numbered(before)| != |Numbered(before + 1)|;
    }
  }

  /** For every A and K some listener that changes the cursor at most A times keeps the drain going (A + 1) K ticks. */
  lemma BoundIsReached(maxChanges: nat, quiescenceTicks: nat)
    requires quiescenceTicks > 0
    ensures var poll, start := LateListener(maxChanges, quiescenceTicks), Numbered(0);
            && (forall n :: Changes(start, poll, n) <= maxChanges)
            && forall n :: 0 <= n < (maxChanges + 1) * quiescenceTicks ==> Quiet(start, poll, n) < quiescenceTicks
  {
    var poll, start := LateListener(maxChanges, quiescenceTicks), Numbered(0);
    forall n: nat
      ensures Changes(start, poll, n) <= maxChanges
      ensures n < (maxChanges + 1) * quiescenceTicks ==> Quiet(start, poll, n) < quiescenceTicks
    {
      LateListenerFacts(maxChanges, quiescenceTicks, n);
      MoreTicks(Moves(maxChanges, quiescenceTicks, n), maxChanges, quiescenceTicks);
    }
  }

  lemma MoreTicks(moves: nat, maxChanges: nat, k: nat)
    ensures moves >= maxChanges ==> maxChanges * k <= moves * k
    ensures (maxChanges + 1) * k == maxChanges * k + k
  {
    if moves >= maxChanges {
      MoreChanges(maxChanges, moves, k);
    }
  }

  // ---- In plain terms ----

  /** Tick m leaves the cursor where it was. */
  predicate LeavesCursor(start: Cursor, poll: Listener, m: nat) {
    poll(m).next == if m == 0 then start else poll(m - 1).next
  }

  /** The drain has been quiet for k ticks exactly when each of the last k left the cursor where it was. */
  lemma {:induction false} QuietMeans(start: Cursor, poll: Listener, n: nat, k: nat)
    ensures Quiet(start, poll, n) >= k <==> k <= n && forall m: nat :: n - k <= m < n ==> LeavesCursor(start, poll, m)
    decreases n
  {
    if n > 0 && k > 0 {
      QuietMeans(start, poll, n - 1, k - 1);
      assert Advances(start, poll, n - 1) <==> !LeavesCursor(start, poll, n - 1);
    }
  }

  /** The ticks before n that moved the cursor. */
  function MovedBefore(start: Cursor, poll: Listener, n: nat): set<int> {
    set m | 0 <= m < n && !LeavesCursor(start, poll, m)
  }

  lemma OneMoreTick(start: Cursor, poll: Listener, n: nat)
    ensures MovedBefore(start, poll, n + 1) ==
            MovedBefore(start, poll, n) + if LeavesCursor(start, poll, n) then {} else {n}
  {
  }

  /** The changes of the cursor are the ticks that moved it. */
  lemma {:induction false} ChangesMean(start: Cursor, poll: Listener, n: nat)
    ensures Changes(start, poll, n) == |MovedBefore(start, poll, n)|
  {
    if n > 0 {
      ChangesMean(start, poll, n - 1);
      OneMoreTick(start, poll, n - 1);
      assert n - 1 !in MovedBefore(start, poll, n - 1);
      assert Advances(start, poll, n - 1) <==> !LeavesCursor(start, poll, n - 1);
    }
  }

  /** Every item of every tick is among the items delivered, each tick's as one piece. */
  lemma {:induction false} ItemsInOrder(poll: Listener, m: nat, n: nat)
    requires m < n
    ensures |ItemsOf(poll, n)| >= |ItemsOf(poll, m)| + |poll(m).items|
    ensures ItemsOf(poll, n)[|ItemsOf(poll, m)|..|ItemsOf(poll, m)| + |poll(m).items|] == poll(m).items
    ensures ItemsOf(poll, 0) == [] && |ItemsOf(poll, m + 1)| == |ItemsOf(poll, m)| + |poll(m).items|
    decreases n
  {
    if m < n - 1 {
      ItemsInOrder(poll, m, n - 1);
    }
  }
}
