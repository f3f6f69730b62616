/** The tracer's updates and clears of the shared table are runs of the publication
    protocol, whatever writes fail: epochs grow, so every publication may begin. */
module CallActionRefinement {
  import opened Words
  import CallActionSlots
  import CallActionTrace
  import CallActionTable
  import opened CallActionProtocol

  // The words of one action as they lie in the slot, unused arguments as zeros.
  function ActionWords(a: CallActionSlots.CallAction): (data: seq<Word>)
    ensures |data| == DATA
  {
    seq(DATA, k requires 0 <= k < DATA => ActionWord(a, k))
  }

  function ActionWord(a: CallActionSlots.CallAction, k: nat): Word {
    if k == PROBE_ID then Wrap(a.probeId)
    else if k == CALLEE then a.callee
    else if k == ARG_COUNT then Wrap(|a.args|)
    else if (k - 3) / 2 >= |a.args| then 0
    else if k % 2 == 1 then a.args[(k - 3) / 2].kind
    else a.args[(k - 3) / 2].value
  }

  // The state of the protocol that a shared table stands for. The data of a disabled slot
  // may be anything.
  ghost predicate Represents(remote: seq<CallActionSlots.CallAction>, count: nat, epoch: nat, st: State) {
    && Good(st) && st.tracer.Quiet? && st.count == count && st.epoch == epoch && |remote| == SLOTS
    && forall j | 0 <= j < SLOTS :: SlotIs(st.slots[j], remote[j])
  }

  ghost predicate SlotIs(slot: Slot, a: CallActionSlots.CallAction) {
    slot.enabled == a.enabled && (a.enabled != 0 ==> slot.data == ActionWords(a))
  }

  /** A payload that reads a slot word by word decides as the tracer's table says. */
  lemma LookupsAgree(remote: seq<CallActionSlots.CallAction>, count: nat, epoch: nat, st: State, j: nat, id: Word)
    requires Represents(remote, count, epoch, st) && j < SLOTS && remote[j].probeId < TWO64 && |remote[j].args| < TWO64
    ensures SlotMatches(st, j, id) <==> CallActionSlots.Matches(remote[j], id)
  {
    assert SlotIs(st.slots[j], remote[j]);
  }

  /** The words of an action: id, callee, count, and kind and value of each argument. */
  lemma WordsAre(a: CallActionSlots.CallAction, i: nat)
    requires |a.args| <= 6 && a.probeId < TWO64
    ensures ActionWords(a)[..3] == [a.probeId, a.callee, |a.args|]
    ensures i < 6 ==> ActionWords(a)[3 + 2 * i..5 + 2 * i] == if i < |a.args| then [a.args[i].kind, a.args[i].value] else [0, 0]
  {
    var ws := ActionWords(a);
    assert ws[0] == a.probeId && ws[1] == a.callee && ws[2] == |a.args|;
    if i < 6 {
      assert (3 + 2 * i - 3) / 2 == i && (4 + 2 * i - 3) / 2 == i && (3 + 2 * i) % 2 == 1 && (4 + 2 * i) % 2 == 0;
      assert ws[3 + 2 * i] == ActionWord(a, 3 + 2 * i) && ws[4 + 2 * i] == ActionWord(a, 4 + 2 * i);
    }
  }

  // From st these steps are possible one after the other and lead to st'.
  ghost predicate Leads(st: State, steps: seq<Action>, st': State)
    decreases |steps|
  {
    if steps == [] then st' == st
    else Shape(st) && Enabled(st, steps[0]) && Leads(Apply(st, steps[0]), steps[1..], st')
  }

  lemma {:induction false} LeadsOn(st: State, steps: seq<Action>, mid: State, more: seq<Action>, st': State)
    requires Leads(st, steps, mid) && Leads(mid, more, st')
    ensures Leads(st, steps + more, st')
    decreases |steps|
  {
    hide Apply;
    hide Enabled;
    hide Shape;
    if steps == [] {
      assert steps + more == more;
    } else {
      LeadsOn(Apply(st, steps[0]), steps[1..], mid, more, st');
      assert (steps + more)[1..] == steps[1..] + more;
    }
  }

  lemma LeadsNone(st: State)
    ensures Leads(st, [], st)
  {
  }

  lemma GoodShape(st: State)
    requires Good(st)
    ensures Shape(st)
  {
  }

  lemma LeadsOne(st: State, a: Action)
    requires Shape(st) && Enabled(st, a)
    ensures Leads(st, [a], Apply(st, a))
  {
    assert [a][1..] == [];
  }

  lemma {:induction false} GoodLeads(st: State, steps: seq<Action>, st': State)
    requires Good(st) && Leads(st, steps, st')
    ensures Good(st')
    decreases |steps|
  {
    hide Apply;
    hide Enabled;
    hide Good;
    if steps != [] {
      GoodStep(st, steps[0]);
      GoodLeads(Apply(st, steps[0]), steps[1..], st');
    }
  }

  // The stores of words k, k + 1, ... of the action being staged.
  function Stores(k: nat): (steps: seq<Action>)
    requires k <= DATA
    decreases DATA - k
  {
    if k == DATA then [] else [StoreWord(k)] + Stores(k + 1)
  }

  // Slot j while words below k of the new data are stored.
  ghost predicate Staged(st: State, j: nat, epoch: nat, data: seq<Word>, k: nat, st': State) {
    && Shape(st) && Shape(st') && j < SLOTS && |data| == DATA && k <= DATA
    && st'.tracer.Staging? && st'.tracer.j == j && st'.tracer.epoch == epoch && st'.tracer.data == data
    && (forall i: nat | i < k :: i in st'.tracer.done && st'.slots[j].data[i] == data[i])
    && st'.slots == st.slots[j := Slot(0, st'.slots[j].data)]
    && st'.count == st.count && st'.published == st.published
  }

  lemma StagedOne(st: State, j: nat, epoch: nat, data: seq<Word>, k: nat, mid: State)
    requires Staged(st, j, epoch, data, k, mid) && k < DATA
    ensures Shape(mid) && Enabled(mid, StoreWord(k)) && Staged(st, j, epoch, data, k + 1, Apply(mid, StoreWord(k)))
    ensures Apply(mid, StoreWord(k)).epoch == mid.epoch
  {
  }

  lemma {:induction false} StoresLead(st: State, j: nat, epoch: nat, data: seq<Word>, k: nat, mid: State) returns (st': State)
    requires Staged(st, j, epoch, data, k, mid)
    ensures Leads(mid, Stores(k), st') && Staged(st, j, epoch, data, DATA, st') && st'.epoch == mid.epoch
    decreases DATA - k
  {
    hide Apply;
    hide Staged;
    hide Enabled;
    StagedShape(st, j, epoch, data, k, mid);
    if k == DATA {
      st' := mid;
    } else {
      StagedOne(st, j, epoch, data, k, mid);
      var next := Apply(mid, StoreWord(k));
      st' := StoresLead(st, j, epoch, data, k + 1, next);
      assert ([StoreWord(k)] + Stores(k + 1))[1..] == Stores(k + 1);
    }
  }

  lemma StagedShape(st: State, j: nat, epoch: nat, data: seq<Word>, k: nat, mid: State)
    requires Staged(st, j, epoch, data, k, mid)
    ensures Shape(mid) && mid.tracer.Staging? && k <= DATA
  {
  }

  /** A publication under an epoch above all earlier ones can begin and be completed: slot j
      then shows exactly this action, and no other slot has changed. */
  lemma PublishCompletes(st: State, j: nat, epoch: nat, data: seq<Word>) returns (st': State)
    requires Good(st) && st.tracer.Quiet? && j < SLOTS && |data| == DATA && epoch > st.epoch
    ensures Leads(st, [Begin(j, epoch, data), Disable] + Stores(0) + [Publish], st') && Good(st')
    ensures st'.tracer.Quiet? && st'.epoch == epoch && st'.count == st.count
    ensures st'.slots == st.slots[j := Slot(epoch, data)]
    ensures st'.published == st.published[epoch := data]
  {
    hide Leads;
    hide Good;
    hide Staged;
    hide Stores;
    var mid := Disabled(st, j, epoch, data);
    var full := StoresLead(st, j, epoch, data, 0, mid);
    LeadsOn(st, [Begin(j, epoch, data), Disable], mid, Stores(0), full);
    st' := Shown(st, j, epoch, data, full);
    LeadsOn(st, [Begin(j, epoch, data), Disable] + Stores(0), full, [Publish], st');
    GoodLeads(st, [Begin(j, epoch, data), Disable] + Stores(0) + [Publish], st');
  }

  // The last step.
  lemma Shown(st: State, j: nat, epoch: nat, data: seq<Word>, full: State) returns (st': State)
    requires Staged(st, j, epoch, data, DATA, full) && epoch != 0
    ensures Leads(full, [Publish], st') && st'.tracer.Quiet? && st'.epoch == full.epoch && st'.count == st.count
    ensures st'.slots == st.slots[j := Slot(epoch, data)] && st'.published == st.published[epoch := data]
  {
    assert full.slots[j].data == data;
    st' := Apply(full, Publish);
    LeadsOne(full, Publish);
  }

  // The first two steps.
  lemma Disabled(st: State, j: nat, epoch: nat, data: seq<Word>) returns (mid: State)
    requires Good(st) && st.tracer.Quiet? && j < SLOTS && |data| == DATA && (epoch == 0 || epoch > st.epoch)
    ensures Leads(st, [Begin(j, epoch, data), Disable], mid) && Staged(st, j, epoch, data, 0, mid)
    ensures mid.epoch == if epoch == 0 then st.epoch else epoch
  {
    var begun := Apply(st, Begin(j, epoch, data));
    mid := Apply(begun, Disable);
    LeadsOne(st, Begin(j, epoch, data));
    LeadsOne(begun, Disable);
    LeadsOn(st, [Begin(j, epoch, data)], begun, [Disable], mid);
    assert [Begin(j, epoch, data)] + [Disable] == [Begin(j, epoch, data), Disable];
  }

  // A publication given up after its first write, or before.
  lemma GivenUp(st: State, j: nat, epoch: nat, data: seq<Word>, first: bool) returns (steps: seq<Action>, st': State)
    requires Good(st) && st.tracer.Quiet? && j < SLOTS && |data| == DATA && (epoch == 0 || epoch > st.epoch)
    ensures Leads(st, steps, st') && Good(st') && st'.tracer.Quiet? && st'.count == st.count
    ensures st'.epoch == (if epoch == 0 then st.epoch else epoch)
    ensures if first then st'.slots == st.slots[j := Slot(0, st'.slots[j].data)] else st'.slots == st.slots
  {
    hide Leads;
    steps := [Begin(j, epoch, data)];
    st' := Apply(st, Begin(j, epoch, data));
    LeadsOne(st, Begin(j, epoch, data));
    if first {
      steps := [Begin(j, epoch, data), Disable];
      st' := Disabled(st, j, epoch, data);
    }
    LeadsOne(st', Abort);
    LeadsOn(st, steps, st', [Abort], Apply(st', Abort));
    steps, st' := steps + [Abort], Apply(st', Abort);
    GoodLeads(st, steps, st');
  }

  // The count is written last.
  lemma Counted(st: State, n: nat) returns (st': State)
    requires Good(st) && st.tracer.Quiet?
    ensures Leads(st, [SetCount(n)], st') && Good(st') && st' == st.(count := n)
  {
    hide Leads;
    GoodStep(st, SetCount(n));
    LeadsOne(st, SetCount(n));
    st' := Apply(st, SetCount(n));
  }

  /** Whatever writes fail, what a publication leaves in the shared table is what some steps
      of the protocol leave there. */
  lemma WritesAreSteps(table: seq<CallActionSlots.CallAction>, st: State, slot: nat, action: CallActionSlots.CallAction,
                       table': seq<CallActionSlots.CallAction>, first: bool, all: bool, count: nat, epoch: nat, count': nat)
    returns (steps: seq<Action>, st': State)
    requires Represents(table, count, epoch, st) && action.enabled == epoch + 1
    requires CallActionTable.SlotWritten(table, table', slot, action, first, all)
    ensures Leads(st, steps, st') && Represents(table', count', epoch + 1, st')
  {
    hide Leads;
    hide Good;
    var mid;
    if all {
      mid := PublishCompletes(st, slot, epoch + 1, ActionWords(action));
      steps := [Begin(slot, epoch + 1, ActionWords(action)), Disable] + Stores(0) + [Publish];
    } else {
      steps, mid := GivenUp(st, slot, epoch + 1, ActionWords(action), first);
    }
    st' := Counted(mid, count');
    LeadsOn(st, steps, mid, [SetCount(count')], st');
    steps := steps + [SetCount(count')];
    GoodShape(st);
    GoodShape(st');
    forall j | 0 <= j < SLOTS ensures SlotIs(st'.slots[j], table'[j]) {
      assert SlotIs(st.slots[j], table[j]);
    }
  }

  /** Clearing a slot, or failing to, is too. */
  lemma ClearsAreSteps(table: seq<CallActionSlots.CallAction>, st: State, slot: int, table': seq<CallActionSlots.CallAction>,
                       emptied: bool, count: nat, epoch: nat, count': nat)
    returns (steps: seq<Action>, st': State)
    requires Represents(table, count, epoch, st) && |table'| == SLOTS
    requires if emptied then 0 <= slot < SLOTS && table' == table[slot := table'[slot]] && table'[slot].enabled == 0 else table' == table
    ensures Leads(st, steps, st') && Represents(table', count', epoch, st')
  {
    hide Leads;
    hide Good;
    var mid := st;
    steps := [];
    if emptied {
      steps, mid := GivenUp(st, slot, 0, ActionWords(CallActionSlots.NoAction), true);
    } else {
      LeadsNone(st);
    }
    st' := Counted(mid, count');
    LeadsOn(st, steps, mid, [SetCount(count')], st');
    steps := steps + [SetCount(count')];
    GoodShape(st);
    GoodShape(st');
    forall j | 0 <= j < SLOTS ensures SlotIs(st'.slots[j], table'[j]) {
      assert SlotIs(st.slots[j], table[j]);
    }
  }

  /** Every update of a session of fewer than 2^64 updates is a run of the protocol: its
      epoch is above the last one, so the publication may begin. */
  method UpdateIsARun(t: CallActionTable.Table, id: nat, resolved: bool, callee: Word, args: seq<CallActionSlots.Arg>, ghost st: State)
    returns (ok: bool, ghost steps: seq<Action>, ghost st': State)
    requires t.Valid() && Represents(t.remote, t.count, t.epoch, st) && |t.issued| + 1 < TWO64
    modifies t
    ensures t.Valid() && Leads(st, steps, st') && Represents(t.remote, t.count, t.epoch, st')
  {
    hide Represents;
    hide Leads;
    hide CallActionSlots.Sound;
    hide CallActionSlots.Actions;
    hide CallActionSlots.GivenSlot;
    hide CallActionSlots.IdsBelow;
    hide CallActionSlots.Find;
    hide CallActionTrace.Traced;
    hide CallActionTrace.Exact;
    hide CallActionTable.SlotWritten;
    hide CallActionTable.Calm;
    ghost var probes, table, count, epoch := t.probes, t.remote, t.count, t.epoch;
    ghost var first, all := CallActionTable.Calm(t.faults, t.writes, 1), CallActionTable.Calm(t.faults, t.writes, 3);
    ok := t.Update(id, resolved, callee, args);
    if CallActionTable.Accepts(probes, id, resolved, args) {
      ghost var p := t.probes[CallActionSlots.Find(probes, id)];
      WrittenInRange(table, t.remote, p.slot, p.action, first, all);
      steps, st' := WritesAreSteps(table, st, p.slot, p.action, t.remote, first, all, count, epoch, t.count);
    } else {
      steps, st' := [], st;
      LeadsNone(st);
    }
  }

  lemma WrittenInRange(table: seq<CallActionSlots.CallAction>, table': seq<CallActionSlots.CallAction>, slot: int,
                       action: CallActionSlots.CallAction, first: bool, all: bool)
    requires CallActionTable.SlotWritten(table, table', slot, action, first, all)
    ensures 0 <= slot < SLOTS
  {
  }

  /** So is every clear. */
  method ClearIsARun(t: CallActionTable.Table, id: nat, ghost st: State) returns (ok: bool, ghost steps: seq<Action>, ghost st': State)
    requires t.Valid() && Represents(t.remote, t.count, t.epoch, st)
    modifies t
    ensures t.Valid() && Leads(st, steps, st') && Represents(t.remote, t.count, t.epoch, st')
  {
    hide Represents;
    hide Leads;
    hide CallActionSlots.Sound;
    hide CallActionSlots.Actions;
    hide CallActionSlots.IdsBelow;
    hide CallActionSlots.Find;
    hide CallActionSlots.Count;
    hide CallActionSlots.Disturbed;
    hide CallActionTrace.Traced;
    hide CallActionTrace.Exact;
    hide CallActionTrace.SyncedCleared;
    hide CallActionTable.Calm;
    ghost var probes, table, count := t.probes, t.remote, t.count;
    ghost var first := CallActionTable.Calm(t.faults, t.writes, 1);
    ok := t.Clear(id);
    if CallActionTable.Known(probes, id) {
      ghost var slot := probes[CallActionSlots.Find(probes, id)].slot;
      steps, st' := ClearsAreSteps(table, st, slot, t.remote, CallActionSlots.SlotValid(slot) && first, count, t.epoch, t.count);
    } else {
      steps, st' := [], st;
      LeadsNone(st);
    }
  }

  // The state after the first t of these steps; after the last one nothing more happens.
  ghost function Walk(st: State, steps: seq<Action>, t: nat): State
    decreases t
  {
    if t == 0 || steps == [] || !Shape(st) || !Enabled(st, steps[0]) then st
    else Walk(Apply(st, steps[0]), steps[1..], t - 1)
  }

  lemma {:induction false} WalkSteps(st: State, steps: seq<Action>, st': State, t: nat)
    requires Good(st) && Leads(st, steps, st')
    ensures Next(Walk(st, steps, t), Walk(st, steps, t + 1))
    ensures t >= |steps| ==> Walk(st, steps, t) == st'
    decreases t
  {
    hide Apply;
    hide Good;
    GoodShape(st);
    if steps == [] {
      assert Enabled(st, Idle) && st == Apply(st, Idle) by { IdleIdles(st); }
    } else if t == 0 {
      assert Walk(Apply(st, steps[0]), steps[1..], 0) == Apply(st, steps[0]);
      assert Enabled(st, steps[0]);
    } else {
      GoodStep(st, steps[0]);
      WalkSteps(Apply(st, steps[0]), steps[1..], st', t - 1);
    }
  }

  lemma IdleIdles(st: State)
    requires Shape(st)
    ensures Enabled(st, Idle) && Apply(st, Idle) == st
  {
  }

  /** Steps from the empty table are the beginning of a run, so everything that holds of
      runs holds of what the tracer does. */
  lemma StepsAreARun(st: State, steps: seq<Action>, st': State) returns (run: nat -> State)
    requires Init(st) && Good(st) && Leads(st, steps, st')
    ensures IsRun(run) && run(0) == st && run(|steps|) == st'
  {
    run := (t: nat) => Walk(st, steps, t);
    forall t: nat ensures Next(run(t), run(t + 1)) && (t >= |steps| ==> run(t) == st') {
      WalkSteps(st, steps, st', t);
    }
  }

  // The table of a fresh session.
  function Fresh(): State {
    State(seq(SLOTS, _ => Slot(0, seq(DATA, _ => 0))), 0, Quiet, 0, map[])
  }

  lemma FreshRepresents(remote: seq<CallActionSlots.CallAction>)
    requires |remote| == SLOTS && forall j | 0 <= j < SLOTS :: remote[j] == CallActionSlots.NoAction
    ensures Init(Fresh()) && Represents(remote, 0, 0, Fresh())
  {
  }
}
