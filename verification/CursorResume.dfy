/**
 Deliver first, advance the cursor after: why work interrupted anywhere and resumed from the stored cursor misses
 nothing. The off-chain sinks and the backfill's enqueue-only features share this shape. Several processes may
 run at once and each can crash between any two statements.
 */
module CursorResume {
  type Item = int

  /** A process between two statements: its cursor in memory, and what is left of the page it is delivering. */
  datatype Process<C> =
    | Ready(cursor: C)
    | Delivering(left: seq<Item>, next: C)

  datatype System<C> = System(delivered: set<Item>, stored: C, running: map<nat, Process<C>>)

  datatype Step<C> =
    | Start(p: nat)
    | Poll(p: nat, items: seq<Item>, next: C)
    | Deliver(p: nat)
    | Store(p: nat)
    | Crash(p: nat)

  function Elements(items: seq<Item>): set<Item> {
    set x | x in items
  }

  /**
   What lies at or before a cursor. The listener's contract: whatever a page's cursor passes beyond the cursor it
   was asked from is in the page. Pages may repeat items, and cursors may go back.
   */
  type Passed<!C> = C -> set<Item>

  predicate Honest<C>(passed: Passed<C>, s: System<C>, step: Step<C>) {
    step.Poll? && step.p in s.running && s.running[step.p].Ready? ==>
      passed(step.next) <= passed(s.running[step.p].cursor) + Elements(step.items)
  }

  function Next<C>(s: System<C>, step: Step<C>): System<C> {
    match step
    case Start(p) => s.(running := s.running[p := Ready(s.stored)])
    case Poll(p, items, next) =>
      if p in s.running && s.running[p].Ready?
      then s.(running := s.running[p := Delivering(items, next)])
      else s
    case Deliver(p) =>
      if p in s.running && s.running[p].Delivering? && s.running[p].left != []
      then
        var left := s.running[p].left;
        s.(delivered := s.delivered + {left[0]}, running := s.running[p := s.running[p].(left := left[1..])])
      else s
    case Store(p) =>
      if p in s.running && s.running[p].Delivering? && s.running[p].left == []
      then s.(stored := s.running[p].next, running := s.running[p := Ready(s.running[p].next)])
      else s
    case Crash(p) => s.(running := s.running - {p})
  }

  ghost predicate ProcessOk<C>(passed: Passed<C>, delivered: set<Item>, process: Process<C>) {
    match process
    case Ready(cursor) => passed(cursor) <= delivered
    case Delivering(left, next) => passed(next) <= delivered + Elements(left)
  }

  /** Everything at or before the stored cursor has been delivered. */
  ghost predicate NothingMissed<C>(passed: Passed<C>, s: System<C>) {
    passed(s.stored) <= s.delivered
  }

  ghost predicate Inv<C>(passed: Passed<C>, s: System<C>) {
    && NothingMissed(passed, s)
    && forall p :: p in s.running ==> ProcessOk(passed, s.delivered, s.running[p])
  }

  ghost predicate AllHonest<C>(passed: Passed<C>, s: System<C>, steps: seq<Step<C>>)
    decreases |steps|
  {
    steps == [] || (Honest(passed, s, steps[0]) && AllHonest(passed, Next(s, steps[0]), steps[1..]))
  }

  function Run<C>(s: System<C>, steps: seq<Step<C>>): System<C>
    decreases |steps|
  {
    if steps == [] then s else Run(Next(s, steps[0]), steps[1..])
  }

  lemma StepKeeps<C>(passed: Passed<C>, s: System<C>, step: Step<C>)
    requires Inv(passed, s) && Honest(passed, s, step)
    ensures Inv(passed, Next(s, step))
  {
    var s' := Next(s, step);
    if step.Deliver? && s' != s {
      var left := s.running[step.p].left;
      assert left == [left[0]] + left[1..];
      assert Elements(left) == {left[0]} + Elements(left[1..]);
    }
  }

  /**
   Across any number of runs, crashed anywhere and resumed, one after another or at once, everything at or before
   the stored cursor has been delivered.
   */
  lemma {:induction false} NothingIsEverMissed<C>(passed: Passed<C>, s: System<C>, steps: seq<Step<C>>)
    requires Inv(passed, s) && AllHonest(passed, s, steps)
    ensures NothingMissed(passed, Run(s, steps))
    decreases |steps|
  {
    if steps != [] {
      StepKeeps(passed, s, steps[0]);
      NothingIsEverMissed(passed, Next(s, steps[0]), steps[1..]);
    }
  }

  // ---- Without the listener's contract ----

  /** What one poll answered. */
  datatype Page<C> = Page(items: seq<Item>, next: C)

  /** A run with its history: the page each process polled last, and the pages whose cursor was stored, in order. */
  datatype History<C> = History(s: System<C>, polled: map<nat, Page<C>>, stored: seq<Page<C>>)

  function Observe<C>(h: History<C>, step: Step<C>): History<C> {
    var s := h.s;
    match step
    case Poll(p, items, next) =>
      if p in s.running && s.running[p].Ready?
      then History(Next(s, step), h.polled[p := Page(items, next)], h.stored)
      else h
    case Store(p) =>
      if p in s.running && s.running[p].Delivering? && s.running[p].left == [] && p in h.polled
      then History(Next(s, step), h.polled, h.stored + [h.polled[p]])
      else h.(s := Next(s, step))
    case _ => h.(s := Next(s, step))
  }

  function ObserveAll<C>(h: History<C>, steps: seq<Step<C>>): History<C>
    decreases |steps|
  {
    if steps == [] then h else ObserveAll(Observe(h, steps[0]), steps[1..])
  }

  /** A process under way has delivered what is no longer left of the page it polled. */
  ghost predicate KeepsPage<C>(h: History<C>, p: nat)
    requires p in h.s.running
  {
    h.s.running[p].Delivering? ==>
      && p in h.polled && h.s.running[p].next == h.polled[p].next
      && Elements(h.polled[p].items) <= h.s.delivered + Elements(h.s.running[p].left)
  }

  ghost predicate AllDelivered<C>(h: History<C>) {
    forall page :: page in h.stored ==> Elements(page.items) <= h.s.delivered
  }

  /** The stored cursor is the one of the last page stored, or the one everything started from. */
  ghost predicate LastStored<C>(h: History<C>, start: C) {
    h.s.stored == if h.stored == [] then start else h.stored[|h.stored| - 1].next
  }

  ghost predicate Told<C>(h: History<C>, start: C) {
    && AllDelivered(h) && LastStored(h, start)
    && (forall p :: p in h.s.running ==> KeepsPage(h, p))
  }

  lemma DeliverTells<C>(h: History<C>, p: nat, start: C)
    requires Told(h, start)
    ensures Told(Observe(h, Deliver(p)), start)
  {
    var h' := Observe(h, Deliver(p));
    if p in h.s.running && h.s.running[p].Delivering? && h.s.running[p].left != [] {
      var left := h.s.running[p].left;
      assert KeepsPage(h, p) && left == [left[0]] + left[1..];
      assert Elements(left) == {left[0]} + Elements(left[1..]);
      forall x | x in h'.s.running ensures KeepsPage(h', x) {
        assert KeepsPage(h, x);
      }
    }
  }

  lemma StoreTells<C>(h: History<C>, p: nat, start: C)
    requires Told(h, start)
    ensures Told(Observe(h, Store(p)), start)
  {
    var h' := Observe(h, Store(p));
    if p in h.s.running && h.s.running[p].Delivering? && h.s.running[p].left == [] {
      assert KeepsPage(h, p) && Elements(h.s.running[p].left) == {};
      assert forall page :: page in h'.stored <==> page in h.stored || page == h.polled[p];
      forall x | x in h'.s.running ensures KeepsPage(h', x) {
        assert x != p ==> KeepsPage(h, x);
      }
    }
  }

  lemma ObserveTells<C>(h: History<C>, step: Step<C>, start: C)
    requires Told(h, start)
    ensures Told(Observe(h, step), start) && Observe(h, step).s == Next(h.s, step)
  {
    if step.Deliver? {
      DeliverTells(h, step.p, start);
    } else if step.Store? {
      StoreTells(h, step.p, start);
      assert step.p in h.s.running ==> KeepsPage(h, step.p);
    } else {
      var h' := Observe(h, step);
      forall x | x in h'.s.running ensures KeepsPage(h', x) {
        assert x in h.s.running ==> KeepsPage(h, x);
      }
    }
  }

  lemma {:induction false} HistoryTells<C>(h: History<C>, steps: seq<Step<C>>, start: C)
    requires Told(h, start)
    ensures Told(ObserveAll(h, steps), start) && ObserveAll(h, steps).s == Run(h.s, steps)
    decreases |steps|
  {
    if steps != [] {
      ObserveTells(h, steps[0], start);
      HistoryTells(Observe(h, steps[0]), steps[1..], start);
    }
  }

  /**
   Whatever the listener answers: over any run, crashed anywhere and overlapping in any way, every item of every
   polled page whose cursor was ever stored has been delivered, and the stored cursor is that of the last such page.
   */
  lemma StoredPagesAreDelivered<C>(s: System<C>, steps: seq<Step<C>>)
    requires s.running == map[]
    ensures var h := ObserveAll(History(s, map[], []), steps);
            h.s == Run(s, steps) && AllDelivered(h) && LastStored(h, s.stored)
  {
    HistoryTells(History(s, map[], []), steps, s.stored);
  }
}
