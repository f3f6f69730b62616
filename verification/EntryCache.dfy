/** The direct-mapped cache that pairs a return event with its entry event and applies the
    entry's filter decision to both. */
module EntryCache {
  import opened Words
  import opened Options
  import opened FilterSyntax
  import FilterParser
  import FilterEvaluator
  import EventRing

  // One entry per slot of the event ring.
  const CAPACITY: nat := EventRing.CAPACITY

  datatype Kind = IsEntry | IsReturn | IsCall | IsOther

  datatype Event = Event(kind: Kind, probe: nat, callId: nat, args: seq<Word>)

  datatype Filter = Filter(enabled: bool, tokens: seq<Token>)

  datatype Slot = Slot(callId: nat, event: Event, suppressed: bool)

  const EmptySlot: Slot := Slot(0, Event(IsOther, 0, 0, []), false)

  // What one dumped event leads to: nothing, or a log line, and the entry it was paired with.
  datatype Outcome = Outcome(printed: bool, entry: Option<Event>)

  // The filters of the registered probes, and the cache.
  datatype State = State(filters: map<nat, Filter>, cache: seq<Slot>)

  predicate Rejected(filters: map<nat, Filter>, ev: Event) {
    && ev.probe in filters && ev.kind.IsEntry? && filters[ev.probe].enabled
    && !FilterParser.Verdict(filters[ev.probe].tokens, FilterParser.Args(ev.args))
  }

  // What the filter in force for the event's probe says, as a statement about the event's
  // arguments: no probe or no enabled filter lets everything pass.
  ghost predicate Passes(filters: map<nat, Filter>, ev: Event) {
    ev.probe in filters && filters[ev.probe].enabled ==>
      exists e: Expr :: filters[ev.probe].tokens == Show(e, 0) && IsTrue(e, ev.args)
  }

  ghost predicate IsTrue(e: Expr, args: seq<Word>) {
    Meaning(e, args).Val? && Meaning(e, args).v != 0
  }

  /** An event is rejected exactly if it is an entry that the filter's expression is not
      true of. */
  lemma RejectedIsFiltered(filters: map<nat, Filter>, ev: Event)
    ensures Rejected(filters, ev) <==> ev.kind.IsEntry? && !Passes(filters, ev)
  {
    if ev.probe in filters && filters[ev.probe].enabled {
      var ts := filters[ev.probe].tokens;
      forall e: Expr | ts == Show(e, 0)
        ensures FilterParser.Verdict(ts, FilterParser.Args(ev.args)) <==> IsTrue(e, ev.args)
      {
        FilterParser.VerdictIsTruth(e, ev.args);
      }
      if FilterParser.Verdict(ts, FilterParser.Args(ev.args)) {
        KeptIsGrammatical(ts, ev.args);
      }
    }
  }

  lemma KeptIsGrammatical(ts: seq<Token>, args: seq<Word>)
    requires FilterParser.Verdict(ts, FilterParser.Args(args))
    ensures exists e: Expr :: ts == Show(e, 0)
  {
    FilterParser.SameTokensEitherWay(0, ts, FilterParser.Args(args), true, 0);
    FilterParser.AcceptsExactlyTheGrammar(ts);
  }

  function Index(callId: nat): (i: nat)
    ensures i < CAPACITY
  {
    callId % CAPACITY
  }

  function CacheAfter(st: State, ev: Event): seq<Slot>
    requires |st.cache| == CAPACITY
  {
    var i := Index(ev.callId);
    if ev.callId == 0 then st.cache
    else if ev.kind.IsEntry? then st.cache[i := Slot(ev.callId, ev, Rejected(st.filters, ev))]
    else if ev.kind.IsReturn? && st.cache[i].callId == ev.callId
      then st.cache[i := st.cache[i].(callId := 0, suppressed := false)]
    else st.cache
  }

  function OutcomeOf(st: State, ev: Event): Outcome
    requires |st.cache| == CAPACITY
  {
    var slot := st.cache[Index(ev.callId)];
    if ev.callId == 0 then Outcome(true, None)
    else if ev.kind.IsEntry? then Outcome(!Rejected(st.filters, ev), None)
    else if ev.kind.IsReturn? && slot.callId == ev.callId then Outcome(!slot.suppressed, Some(slot.event))
    else Outcome(true, None)
  }

  class Dumper {
    var filters: map<nat, Filter>
    const cache: array<Slot>

    ghost predicate Valid() {
      cache.Length == CAPACITY
    }

    ghost function View(): State
      reads this, cache
    {
      State(filters, cache[..])
    }

    constructor ()
      ensures Valid() && fresh(cache) && View() == Start()
    {
      filters := map[];
      cache := new Slot[CAPACITY](_ => EmptySlot);
    }

    // A hot update of one probe's filter.
    method SetFilter(probe: nat, filter: Filter)
      requires Valid()
      modifies this
      ensures View() == old(View()).(filters := old(filters)[probe := filter])
    {
      filters := filters[probe := filter];
    }

    method IsSuppressed(ev: Event) returns (suppressed: bool)
      ensures suppressed == Rejected(filters, ev)
      ensures suppressed <==> ev.kind.IsEntry? && !Passes(filters, ev)
    {
      RejectedIsFiltered(filters, ev);
      if ev.probe !in filters || !ev.kind.IsEntry? || !filters[ev.probe].enabled {
        return false;
      }
      var keep := FilterEvaluator.Evaluate(true, filters[ev.probe].tokens, ev.args);
      return !keep;
    }

    method DumpOne(ev: Event) returns (outcome: Outcome)
      requires Valid()
      modifies cache
      ensures View() == old(View()).(cache := CacheAfter(old(View()), ev))
      ensures outcome == OutcomeOf(old(View()), ev)
      ensures ev.kind.IsEntry? && ev.callId != 0 ==>
                (outcome.printed <==> Passes(old(filters), ev)) && cache[ev.callId % CAPACITY].event == ev
      ensures ev.callId == 0 || ev.kind.IsCall? || ev.kind.IsOther? ==> outcome.printed && cache[..] == old(cache[..])
      ensures !ev.kind.IsReturn? ==> outcome.entry.None?
    {
      RejectedIsFiltered(filters, ev);
      if ev.kind.IsCall? {
        return Outcome(true, None);
      }
      var entry := None;
      if ev.kind.IsEntry? && ev.callId != 0 {
        var suppressed := IsSuppressed(ev);
        cache[Index(ev.callId)] := Slot(ev.callId, ev, suppressed);
        if suppressed {
          return Outcome(false, None);
        }
      } else if ev.kind.IsReturn? && ev.callId != 0 {
        var i := Index(ev.callId);
        var slot := cache[i];
        if slot.callId == ev.callId {
          entry := Some(slot.event);
          cache[i] := slot.(callId := 0, suppressed := false);
          if slot.suppressed {
            return Outcome(false, entry);
          }
        }
      }
      return Outcome(true, entry);
    }
  }

  /* Whole histories: events are dumped, and filters change in between. */

  datatype Op = Dump(ev: Event) | Refilter(filters: map<nat, Filter>)

  function Start(): State {
    State(map[], seq(CAPACITY, _ => EmptySlot))
  }

  function After(ops: seq<Op>, k: nat): (st: State)
    requires k <= |ops|
    ensures |st.cache| == CAPACITY
  {
    if k == 0 then Start()
    else
      var before := After(ops, k - 1);
      match ops[k - 1]
      case Dump(ev) => before.(cache := CacheAfter(before, ev))
      case Refilter(filters) => before.(filters := filters)
  }

  predicate EntryOf(op: Op, callId: nat) {
    op.Dump? && op.ev.kind.IsEntry? && op.ev.callId == callId
  }

  // An entry that shares the cache slot of this call id, or the return that empties it.
  predicate Touches(op: Op, callId: nat) {
    op.Dump? && op.ev.callId != 0
    && ((op.ev.kind.IsEntry? && op.ev.callId % CAPACITY == callId % CAPACITY)
        || (op.ev.kind.IsReturn? && op.ev.callId == callId))
  }

  // The entry of this call id is at i and nothing has touched its slot up to k.
  ghost predicate Open(ops: seq<Op>, i: nat, k: nat, callId: nat) {
    i < k <= |ops| && EntryOf(ops[i], callId) && forall m | i < m < k :: !Touches(ops[m], callId)
  }

  lemma {:induction false} SlotHoldsOpenEntry(ops: seq<Op>, k: nat, callId: nat)
    requires k <= |ops| && callId != 0
    ensures After(ops, k).cache[Index(callId)].callId == callId <==> exists i: nat :: Open(ops, i, k, callId)
    ensures forall i: nat | Open(ops, i, k, callId) ::
              var slot := After(ops, k).cache[Index(callId)];
              slot.event == ops[i].ev && slot.suppressed == Rejected(After(ops, i).filters, ops[i].ev)
  {
    hide Rejected;
    if k > 0 {
      SlotHoldsOpenEntry(ops, k - 1, callId);
      var p := k - 1;
      OpenStep(ops, p, k, callId);
      hide Open;
      if EntryOf(ops[k - 1], callId) {
        assert Open(ops, k - 1, k, callId);
      } else if !Touches(ops[k - 1], callId) {
        var was, now := After(ops, p).cache[Index(callId)], After(ops, k).cache[Index(callId)];
        assert now == was || (now.callId != callId && was.callId != callId);
        assert (exists i: nat :: Open(ops, i, k, callId)) <==> exists i: nat :: Open(ops, i, p, callId);
      }
    }
  }

  // How one more operation changes which entry is open.
  lemma OpenStep(ops: seq<Op>, p: nat, k: nat, callId: nat)
    requires k == p + 1 <= |ops| && callId != 0
    ensures EntryOf(ops[p], callId) ==> Touches(ops[p], callId) && forall i: nat :: Open(ops, i, k, callId) <==> i == p
    ensures !EntryOf(ops[p], callId) && Touches(ops[p], callId) ==> forall i: nat :: !Open(ops, i, k, callId)
    ensures !Touches(ops[p], callId) ==> forall i: nat :: Open(ops, i, k, callId) <==> Open(ops, i, p, callId)
  {
    var last := ops[p];
    assert forall i: nat | i < p && Open(ops, i, k, callId) :: !Touches(last, callId);
  }

  /** A return is paired exactly if its entry was dumped and since then neither another
      return of the same call nor an entry with a congruent call id; then it is paired
      with that entry and logged exactly if the entry was, whatever filters apply now. */
  lemma ReturnFollowsItsEntry(ops: seq<Op>, j: nat)
    requires j < |ops| && ops[j].Dump? && ops[j].ev.kind.IsReturn? && ops[j].ev.callId != 0
    ensures var outcome := OutcomeOf(After(ops, j), ops[j].ev);
            && (outcome.entry.Some? <==> exists i: nat :: Open(ops, i, j, ops[j].ev.callId))
            && (outcome.entry.None? ==> outcome.printed)
            && (forall i: nat | Open(ops, i, j, ops[j].ev.callId) ::
                  && outcome.entry == Some(ops[i].ev)
                  && outcome.printed == OutcomeOf(After(ops, i), ops[i].ev).printed
                  && outcome.printed == Passes(After(ops, i).filters, ops[i].ev))
  {
    hide Rejected;
    hide Passes;
    SlotHoldsOpenEntry(ops, j, ops[j].ev.callId);
    forall i: nat | Open(ops, i, j, ops[j].ev.callId)
      ensures Rejected(After(ops, i).filters, ops[i].ev) <==> !Passes(After(ops, i).filters, ops[i].ev)
    {
      RejectedIsFiltered(After(ops, i).filters, ops[i].ev);
    }
  }
}
