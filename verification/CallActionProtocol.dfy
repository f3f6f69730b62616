/** Publishing call actions to a running target: the tracer writes disabled -> data ->
    enabled, one word at a time, while payload threads copy a slot and re-check its
    epoch. Epochs are 64-bit and taken not to wrap. */
module CallActionProtocol {
  import opened Words
  import CallActionSlots

  const SLOTS: nat := CallActionSlots.SLOTS
  const ARG_CAP: nat := CallActionSlots.ARG_CAP

  // Words of one action after `enabled`: probe_id, callee_addr, arg_count, and kind and
  // value of six arguments.
  const DATA: nat := 15
  const PROBE_ID: nat := 0
  const CALLEE: nat := 1
  const ARG_COUNT: nat := 2

  datatype Slot = Slot(enabled: nat, data: seq<Word>)

  // What the tracer is doing: nothing, about to disable slot j, or storing the new data
  // of slot j. An epoch of 0 clears the slot.
  datatype Tracer =
    | Quiet
    | Starting(j: nat, epoch: nat, data: seq<Word>)
    | Staging(j: nat, epoch: nat, data: seq<Word>, done: set<nat>)

  // `published` remembers every action that was completely published, by epoch.
  datatype State = State(slots: seq<Slot>, count: nat, tracer: Tracer, epoch: nat, published: map<nat, seq<Word>>)

  datatype Action =
    | Begin(j: nat, epoch: nat, data: seq<Word>)
    | Disable
    | StoreWord(k: nat)
    | StoreDisabled
    | Publish
    | Finish
    | Abort
    | SetCount(n: nat)
    | Idle

  ghost predicate Shape(st: State) {
    && |st.slots| == SLOTS
    && (forall j | 0 <= j < SLOTS :: |st.slots[j].data| == DATA)
    && (st.tracer.Quiet? || (st.tracer.j < SLOTS && |st.tracer.data| == DATA))
  }

  ghost predicate Init(st: State) {
    && Shape(st) && st.tracer.Quiet? && st.published == map[]
    && forall j | 0 <= j < SLOTS :: st.slots[j].enabled == 0
  }

  ghost predicate Enabled(st: State, a: Action)
    requires Shape(st)
  {
    match a
    case Begin(j, epoch, data) =>
      st.tracer.Quiet? && j < SLOTS && |data| == DATA && (epoch == 0 || epoch > st.epoch)
    case Disable => st.tracer.Starting?
    case StoreWord(k) => st.tracer.Staging? && k < DATA
    case StoreDisabled => st.tracer.Staging?
    case Publish => st.tracer.Staging? && st.tracer.epoch != 0 && forall k | 0 <= k < DATA :: k in st.tracer.done
    case Finish => st.tracer.Staging? && st.tracer.epoch == 0
    case Abort => true
    case SetCount(_) => true
    case Idle => true
  }

  ghost function WithEnabled(st: State, j: nat, e: nat): State
    requires Shape(st) && j < SLOTS
  {
    st.(slots := st.slots[j := st.slots[j].(enabled := e)])
  }

  ghost function Apply(st: State, a: Action): State
    requires Shape(st) && Enabled(st, a)
  {
    match a
    case Begin(j, epoch, data) =>
      st.(tracer := Starting(j, epoch, data), epoch := if epoch == 0 then st.epoch else epoch)
    case Disable =>
      WithEnabled(st, st.tracer.j, 0).(tracer := Staging(st.tracer.j, st.tracer.epoch, st.tracer.data, {}))
    case StoreWord(k) =>
      var j := st.tracer.j;
      st.(slots := st.slots[j := st.slots[j].(data := st.slots[j].data[k := st.tracer.data[k]])],
          tracer := st.tracer.(done := st.tracer.done + {k}))
    case StoreDisabled => WithEnabled(st, st.tracer.j, 0)
    case Publish =>
      WithEnabled(st, st.tracer.j, st.tracer.epoch)
        .(tracer := Quiet, published := st.published[st.tracer.epoch := st.tracer.data])
    case Finish => st.(tracer := Quiet)
    case Abort => st.(tracer := Quiet)
    case SetCount(n) => st.(count := n)
    case Idle => st
  }

  ghost predicate Next(st: State, st': State) {
    Shape(st) && exists a: Action :: Enabled(st, a) && st' == Apply(st, a)
  }

  ghost predicate IsRun(run: nat -> State) {
    Init(run(0)) && forall t: nat :: Next(run(t), run(t + 1))
  }

  // An enabled slot holds exactly what was published under its epoch, and is not being
  // written; a slot being written holds the words stored so far.
  ghost predicate SlotOk(st: State, j: nat)
    requires Shape(st) && j < SLOTS
  {
    var slot := st.slots[j];
    && (slot.enabled != 0 ==> slot.enabled in st.published && slot.data == st.published[slot.enabled])
    && (st.tracer.Staging? && st.tracer.j == j ==>
          slot.enabled == 0 && forall k | k in st.tracer.done :: k < DATA ==> slot.data[k] == st.tracer.data[k])
  }

  ghost predicate Good(st: State) {
    && Shape(st)
    && (forall j | 0 <= j < SLOTS :: SlotOk(st, j))
    && (forall e | e in st.published :: e <= st.epoch)
    && (!st.tracer.Quiet? && st.tracer.epoch != 0 ==> st.tracer.epoch !in st.published && st.tracer.epoch <= st.epoch)
  }

  lemma GoodStep(st: State, a: Action)
    requires Good(st) && Enabled(st, a)
    ensures Good(Apply(st, a))
  {
    var st' := Apply(st, a);
    forall j | 0 <= j < SLOTS ensures SlotOk(st', j) {
      assert SlotOk(st, j);
      if a.Publish? && j == st.tracer.j {
        assert st.slots[j].data == st.tracer.data;
      }
    }
  }

  // Published actions are never forgotten or changed.
  ghost predicate Remembers(st: State, st': State) {
    forall e | e in st.published :: e in st'.published && st'.published[e] == st.published[e]
  }

  lemma RemembersStep(st: State, a: Action)
    requires Good(st) && Enabled(st, a)
    ensures Remembers(st, Apply(st, a))
  {
  }

  lemma {:induction false} GoodAlways(run: nat -> State, t: nat)
    requires IsRun(run)
    ensures Good(run(t))
  {
    if t == 0 {
      assert Init(run(0));
    } else {
      GoodAlways(run, t - 1);
      assert Next(run(t - 1), run(t - 1 + 1));
      var a :| Enabled(run(t - 1), a) && run(t) == Apply(run(t - 1), a);
      GoodStep(run(t - 1), a);
    }
  }

  lemma {:induction false} RemembersAlways(run: nat -> State, t: nat, u: nat)
    requires IsRun(run) && t <= u
    ensures Remembers(run(t), run(u))
    decreases u
  {
    if t < u {
      RemembersAlways(run, t, u - 1);
      GoodAlways(run, u - 1);
      assert Next(run(u - 1), run(u - 1 + 1));
      var a :| Enabled(run(u - 1), a) && run(u) == Apply(run(u - 1), a);
      RemembersStep(run(u - 1), a);
    }
  }

  // A published epoch that has left its slot never comes back to it.
  ghost predicate Gone(st: State, j: nat, e: nat)
    requires j < SLOTS
  {
    Good(st) && e in st.published && st.slots[j].enabled != e
  }

  lemma GoneStep(st: State, a: Action, j: nat, e: nat)
    requires j < SLOTS && e != 0 && Gone(st, j, e) && Enabled(st, a)
    ensures Gone(Apply(st, a), j, e)
  {
    GoodStep(st, a);
    RemembersStep(st, a);
    hide Good;
    assert Shape(st);
    if a.Publish? {
      assert st.tracer.epoch != e by { GoodFresh(st); }
    }
  }

  lemma GoodFresh(st: State)
    requires Good(st) && st.tracer.Staging? && st.tracer.epoch != 0
    ensures st.tracer.epoch !in st.published
  {
  }

  lemma {:induction false} EpochNeverReturns(run: nat -> State, j: nat, e: nat, t: nat, u: nat)
    requires IsRun(run) && j < SLOTS && e != 0 && t <= u && Gone(run(t), j, e)
    ensures Gone(run(u), j, e)
    decreases u
  {
    hide Gone;
    hide Apply;
    if t < u {
      EpochNeverReturns(run, j, e, t, u - 1);
      assert Next(run(u - 1), run(u - 1 + 1));
      var a :| Enabled(run(u - 1), a) && run(u) == Apply(run(u - 1), a);
      GoneStep(run(u - 1), a, j, e);
    }
  }

  /** If a slot shows epoch e before and after, then at every instant in between it holds
      word for word the action published under e. */
  lemma SnapshotIsPublished(run: nat -> State, j: nat, e: nat, before: nat, t: nat, after: nat)
    requires IsRun(run) && j < SLOTS && e != 0 && before <= t <= after
    requires Good(run(before)) && run(before).slots[j].enabled == e
    requires Good(run(after)) && run(after).slots[j].enabled == e
    ensures Good(run(t)) && e in run(t).published && e in run(before).published
    ensures run(t).slots[j].enabled == e && run(t).slots[j].data == run(before).published[e]
  {
    GoodAlways(run, t);
    assert SlotOk(run(before), j) && SlotOk(run(t), j);
    RemembersAlways(run, before, t);
    if run(t).slots[j].enabled != e {
      EpochNeverReturns(run, j, e, t, after);
      assert false;
    }
  }

  // The action words were completely published at some point of the run so far.
  ghost predicate WasPublished(st: State, data: seq<Word>) {
    exists e :: e in st.published && st.published[e] == data
  }

  // The tracer writes nothing between these instants.
  ghost predicate Resting(run: nat -> State, lo: nat, hi: nat) {
    forall t: nat | lo <= t <= hi :: run(t).slots == run(lo).slots && run(t).count == run(lo).count
  }

  // Slot j shows an action with a callee for this probe.
  ghost predicate SlotMatches(st: State, j: nat, probeId: Word) {
    && Shape(st) && j < SLOTS && st.slots[j].enabled != 0
    && st.slots[j].data[PROBE_ID] == probeId && st.slots[j].data[CALLEE] != 0 && st.slots[j].data[ARG_COUNT] <= 6
  }

  // The slot a lookup takes: the home slot if it matches, else the lowest that does.
  ghost predicate Chosen(st: State, j: nat, probeId: Word) {
    && SlotMatches(st, j, probeId)
    && (j == probeId % 32 || (!SlotMatches(st, probeId % 32, probeId) && forall k: nat | k < j :: !SlotMatches(st, k, probeId)))
  }

  lemma RestingWithin(run: nat -> State, lo: nat, t: nat, u: nat, hi: nat, j: nat, probeId: Word)
    requires Resting(run, lo, hi) && lo <= t <= u <= hi && Shape(run(lo)) && Shape(run(t))
    ensures Resting(run, t, u)
    ensures SlotMatches(run(t), j, probeId) <==> SlotMatches(run(lo), j, probeId)
  {
    assert run(t).slots == run(lo).slots;
  }

  lemma MatchInRange(st: State, probeId: Word)
    ensures forall j: nat | SlotMatches(st, j, probeId) :: j < SLOTS
  {
  }

  lemma SameCount(run: nat -> State, start: nat, t: nat)
    requires start <= t
    ensures Resting(run, start, t) ==> run(t).count == run(start).count
  {
  }

  // A payload thread reading the shared table while the tracer and other threads run.
  class Payload {
    const run: nat -> State
    var now: nat

    constructor (run: nat -> State)
      ensures this.run == run && now == 0
    {
      this.run := run;
      now := 0;
    }

    method Wait()
      modifies this
      ensures old(now) <= now
    {
      var later: nat :| now <= later;
      now := later;
    }

    /** Copies slot j if it holds an action for the probe. What it returns was published
        as a whole; it is never a mix of two actions. */
    method CopyIfMatch(j: nat, probeId: Word) returns (found: bool, data: seq<Word>)
      requires IsRun(run) && j < SLOTS
      modifies this
      ensures old(now) <= now
      ensures found ==> WasPublished(run(now), data) && |data| == DATA
      ensures found ==> data[PROBE_ID] == probeId && data[CALLEE] != 0 && data[ARG_COUNT] <= ARG_CAP
      ensures Resting(run, old(now), now) ==>
                && (found <==> SlotMatches(run(old(now)), j, probeId))
                && (found ==> data == run(old(now)).slots[j].data)
    {
      hide SlotOk;
      hide IsRun;
      hide WasPublished;
      ghost var start := now;
      GoodAlways(run, now);
      Wait();
      GoodAlways(run, now);
      var enabled := run(now).slots[j].enabled;
      ghost var before := now;
      data := [];
      if enabled == 0 {
        return false, data;
      }
      while |data| < DATA
        invariant before <= now && |data| <= DATA
        invariant forall k | 0 <= k < |data| :: SawWord(run, j, k, data[k], before, now)
        invariant Resting(run, start, now) ==> data == run(start).slots[j].data[..|data|]
        decreases DATA - |data|
      {
        Wait();
        GoodAlways(run, now);
        assert Resting(run, start, now) ==> run(now).slots == run(start).slots;
        data := data + [run(now).slots[j].data[|data|]];
      }
      Wait();
      GoodAlways(run, now);
      var again := run(now).slots[j].enabled;
      if again != enabled || data[PROBE_ID] != probeId || data[CALLEE] == 0 || data[ARG_COUNT] > ARG_CAP {
        return false, data;
      }
      WholeSnapshot(run, j, enabled, data, before, now);
      return true, data;
    }

    /** The home slot first, then every other slot. While the tracer writes nothing, this
        finds an action exactly if some slot has one for the probe and the count is not zero. */
    method FindCallAction(probeId: Word) returns (found: bool, data: seq<Word>)
      requires IsRun(run)
      modifies this
      ensures old(now) <= now
      ensures found ==> probeId != 0 && WasPublished(run(now), data) && |data| == DATA
      ensures found ==> data[PROBE_ID] == probeId && data[CALLEE] != 0 && data[ARG_COUNT] <= ARG_CAP
      ensures Resting(run, old(now), now) ==>
                var st := run(old(now));
                && (found <==> st.count != 0 && probeId != 0 && exists j: nat :: SlotMatches(st, j, probeId))
                && (found ==> exists j: nat :: Chosen(st, j, probeId) && data == st.slots[j].data)
    {
      hide SlotMatches;
      hide Resting;
      hide IsRun;
      hide WasPublished;
      found, data := false, [];
      ghost var start := now;
      Wait();
      if run(now).count == 0 || probeId == 0 {
        SameCount(run, start, now);
        return;
      }
      ghost var looked := now;
      var home := probeId % SLOTS;
      found, data := Try(home, probeId, start);
      if found {
        SameCount(run, start, looked);
        return;
      }
      var i := 0;
      while i < SLOTS
        invariant i <= SLOTS && start <= looked <= now && !found
        invariant Resting(run, start, now) ==> !SlotMatches(run(start), home, probeId)
        invariant Resting(run, start, now) ==> forall k: nat | k < i :: !SlotMatches(run(start), k, probeId)
      {
        if i != home {
          found, data := Try(i, probeId, start);
          if found {
            return;
          }
        }
        i := i + 1;
      }
      MatchInRange(run(start), probeId);
    }

    // Reads slot j; what rested since `start` is as it was then.
    method Try(j: nat, probeId: Word, ghost start: nat) returns (found: bool, data: seq<Word>)
      requires IsRun(run) && j < SLOTS && start <= now
      modifies this
      ensures old(now) <= now
      ensures found ==> WasPublished(run(now), data) && |data| == DATA
      ensures found ==> data[PROBE_ID] == probeId && data[CALLEE] != 0 && data[ARG_COUNT] <= ARG_CAP
      ensures Resting(run, start, now) ==>
                && Resting(run, start, old(now)) && run(old(now)).count == run(start).count
                && (found <==> SlotMatches(run(start), j, probeId))
                && (found ==> data == run(start).slots[j].data)
    {
      GoodAlways(run, start);
      GoodAlways(run, now);
      ghost var before := now;
      found, data := CopyIfMatch(j, probeId);
      if Resting(run, start, now) {
        RestingWithin(run, start, before, now, now, j, probeId);
      }
    }
  }

  ghost predicate SawWord(run: nat -> State, j: nat, k: nat, w: Word, lo: nat, hi: nat)
    requires j < SLOTS && k < DATA
  {
    exists t: nat :: lo <= t <= hi && Shape(run(t)) && run(t).slots[j].data[k] == w
  }

  lemma WholeSnapshot(run: nat -> State, j: nat, e: nat, data: seq<Word>, before: nat, after: nat)
    requires IsRun(run) && j < SLOTS && e != 0 && before <= after && |data| == DATA
    requires Good(run(before)) && run(before).slots[j].enabled == e
    requires Good(run(after)) && run(after).slots[j].enabled == e
    requires forall k | 0 <= k < DATA :: SawWord(run, j, k, data[k], before, after)
    ensures WasPublished(run(after), data)
  {
    SnapshotIsPublished(run, j, e, before, after, after);
    var whole := run(before).published[e];
    RemembersAlways(run, before, after);
    assert |whole| == DATA;
    forall k | 0 <= k < DATA ensures data[k] == whole[k] {
      assert SawWord(run, j, k, data[k], before, after);
      var t: nat :| before <= t <= after && Shape(run(t)) && run(t).slots[j].data[k] == data[k];
      SnapshotIsPublished(run, j, e, before, t, after);
    }
    assert data == whole;
  }
}
