/** Why whole-event reads need the reservation discipline: with it no committed slot is
    ever torn, and without it every state can be driven into a torn one. */
module EventRingLaps {
  import opened Words
  import opened EventRing

  // A slot announces s but does not hold what the producer of s stored.
  ghost predicate Torn(st: State, s: nat) {
    && Shape(st) && Live(st, s)
    && st.slots[SlotOf(s)].committed == s
    && !Carries(st.slots[SlotOf(s)].words, Of(st, s).stores)
  }

  ghost predicate Runs(st: State, acts: seq<Action>, st': State)
    decreases |acts|
  {
    if acts == [] then st' == st
    else Shape(st) && Enabled(st, acts[0]) && Runs(Apply(st, acts[0]), acts[1..], st')
  }

  lemma {:induction false} RunsJoin(st: State, acts: seq<Action>, mid: State, more: seq<Action>, st': State)
    requires Runs(st, acts, mid) && Runs(mid, more, st')
    ensures Runs(st, acts + more, st')
    decreases |acts|
  {
    if acts == [] {
      assert acts + more == more;
    } else {
      RunsJoin(Apply(st, acts[0]), acts[1..], mid, more, st');
      assert (acts + more)[1..] == acts[1..] + more;
    }
  }

  lemma RunsOne(st: State, a: Action)
    requires Shape(st) && Enabled(st, a)
    ensures Runs(st, [a], Apply(st, a))
  {
    assert Runs(Apply(st, a), [a][1..], Apply(st, a));
  }

  lemma DisciplineNeverTears(run: nat -> State, t: nat, s: nat)
    requires IsRun(run) && Disciplined(run)
    ensures !Torn(run(t), s)
  {
    OrderlyAlways(run, t);
    CommitsNamedAlways(run, t);
    if Torn(run(t), s) {
      CommittedSlotCarries(run(t), s);
    }
  }

  // An event that stores another value than v in word f.
  ghost function Rival(f: nat, v: Word): (stores: seq<Store>)
    requires f < WORDS
    ensures HandlerStores(stores) && LastStore(stores, f) >= 0 && LastStore(stores, f) != v
  {
    var other: Word := if v == 0 then 1 else 0;
    if f != EVENT_TYPE then
      var stores := seq(WORDS, i requires 0 <= i < WORDS => Store(i, if i == f then other else 0));
      assert StoresOf(stores, ENTRY);
      StoredOnce(stores, f, f);
      stores
    else
      var kind := if v == ENTRY then RETURN else ENTRY;
      var stores := seq(|Fields(kind)|, i requires 0 <= i < |Fields(kind)| => Store(Fields(kind)[i], kind));
      assert StoresOf(stores, kind);
      assert forall i | 0 <= i < |stores| && i != EVENT_TYPE :: stores[i].field != EVENT_TYPE;
      StoredOnce(stores, EVENT_TYPE, EVENT_TYPE);
      stores
  }

  lemma {:induction false} StoredOnce(stores: seq<Store>, f: nat, k: nat)
    requires k < |stores| && stores[k].field == f && forall i | 0 <= i < |stores| && i != k :: stores[i].field != f
    ensures LastStore(stores, f) == stores[k].value
  {
    var n := |stores| - 1;
    if k < n {
      StoredOnce(stores[..n], f, k);
    }
  }

  // Producer n makes all its stores that are left, undisturbed.
  lemma {:induction false} WriteAll(st: State, n: nat, stores: seq<Store>, k: nat) returns (acts: seq<Action>, st': State)
    requires Shape(st) && Live(st, n) && k <= |stores| && Of(st, n) == Producer(stores, Writing(k)) && ValidStores(stores)
    requires Carries(st.slots[SlotOf(n)].words, stores[..k])
    ensures Runs(st, acts, st') && Shape(st') && st'.magic == st.magic && Live(st', n)
    ensures st'.producers == st.producers[n - 1 := Producer(stores, Writing(|stores|))]
    ensures st'.slots == st.slots[SlotOf(n) := st'.slots[SlotOf(n)]]
    ensures st'.slots[SlotOf(n)].committed == st.slots[SlotOf(n)].committed
    ensures Carries(st'.slots[SlotOf(n)].words, stores)
    decreases |stores| - k
  {
    hide Runs;
    hide Carries;
    if k == |stores| {
      acts, st' := [], st;
      assert stores[..k] == stores;
      assert Runs(st, [], st) by { RunsNone(st); }
    } else {
      var mid := Apply(st, Write(n));
      RunsOne(st, Write(n));
      CarriesNextStore(st.slots[SlotOf(n)].words, stores, k);
      assert mid.producers == st.producers[n - 1 := Producer(stores, Writing(k + 1))];
      var rest;
      rest, st' := WriteAll(mid, n, stores, k + 1);
      RunsJoin(st, [Write(n)], mid, rest, st');
      acts := [Write(n)] + rest;
    }
  }

  lemma RunsNone(st: State)
    ensures Runs(st, [], st)
  {
  }

  // The next producer of the slot stores its event and stops before committing.
  lemma LapAndWrite(st: State, stores: seq<Store>) returns (acts: seq<Action>, st': State)
    requires Shape(st) && st.magic == MAGIC && |st.producers| >= CAPACITY && HandlerStores(stores)
    ensures Runs(st, acts, st')
    ensures var n := |st.producers| + 1;
            && Shape(st') && st'.magic == MAGIC
            && st'.producers == st.producers + [Producer(stores, Writing(|stores|))]
            && st'.slots == st.slots[SlotOf(n) := st'.slots[SlotOf(n)]]
            && Carries(st'.slots[SlotOf(n)].words, stores)
    ensures exists i :: 0 <= i < |acts| && acts[i].Reserve?
  {
    hide Runs;
    hide HandlerStores;
    var n := |st.producers| + 1;
    var a := Apply(st, Reserve(stores));
    var b := Apply(a, Zero(n));
    RunsOne(st, Reserve(stores));
    RunsOne(a, Zero(n));
    RunsJoin(st, [Reserve(stores)], a, [Zero(n)], b);
    assert Carries(b.slots[SlotOf(n)].words, stores[..0]);
    var rest;
    rest, st' := WriteAll(b, n, stores, 0);
    RunsJoin(st, [Reserve(stores)] + [Zero(n)], b, rest, st');
    acts := [Reserve(stores)] + [Zero(n)] + rest;
    assert acts[0].Reserve?;
    assert st'.producers == st.producers + [Producer(stores, Writing(|stores|))];
  }

  // A slot whose word f is not what its announced number stored there is torn.
  lemma TornAt(st: State, s: nat, f: nat)
    requires Shape(st) && Live(st, s) && st.slots[SlotOf(s)].committed == s && f < WORDS
    requires LastStore(Of(st, s).stores, f) >= 0 && st.slots[SlotOf(s)].words[f] != LastStore(Of(st, s).stores, f)
    ensures Torn(st, s)
  {
  }

  lemma CarriesAt(words: seq<Word>, stores: seq<Store>, f: nat)
    requires Carries(words, stores) && f < WORDS && LastStore(stores, f) >= 0
    ensures words[f] == LastStore(stores, f)
  {
  }

  // Producer n has stored its event over the slot of p, which still has a word to store.
  lemma LateStore(st: State, n: nat, p: nat, rival: seq<Store>) returns (st': State)
    requires Shape(st) && Live(st, n) && Live(st, p) && n != p && SlotOf(n) == SlotOf(p)
    requires Of(st, n) == Producer(rival, Writing(|rival|))
    requires Of(st, p).phase.Writing? && Of(st, p).phase.done < |Of(st, p).stores|
    requires var late := Of(st, p).stores[Of(st, p).phase.done];
             LastStore(rival, late.field) >= 0 && LastStore(rival, late.field) != late.value
    ensures Runs(st, [Commit(n)] + [Write(p)], st') && Torn(st', n)
  {
    hide Runs;
    hide Carries;
    hide LastStore;
    hide Torn;
    var done := Apply(st, Commit(n));
    RunsOne(st, Commit(n));
    assert Of(done, p) == Of(st, p);
    st' := Apply(done, Write(p));
    RunsOne(done, Write(p));
    RunsJoin(st, [Commit(n)], done, [Write(p)], st');
    TornAt(st', n, Of(st, p).stores[Of(st, p).phase.done].field);
  }

  // The previous producer p still has a word to store: let the next one commit first.
  lemma TearByLateStore(st: State, p: nat) returns (acts: seq<Action>, st': State)
    requires Shape(st) && st.magic == MAGIC && |st.producers| >= CAPACITY
    requires p == |st.producers| + 1 - CAPACITY
    requires Of(st, p).phase.Writing? && Of(st, p).phase.done < |Of(st, p).stores|
    ensures Runs(st, acts, st') && Torn(st', |st.producers| + 1)
    ensures exists i :: 0 <= i < |acts| && acts[i].Reserve?
  {
    hide Runs;
    hide Torn;
    hide HandlerStores;
    hide Carries;
    hide LastStore;
    var n := |st.producers| + 1;
    assert SlotOf(n) == SlotOf(p) by { assert (n - 1) % CAPACITY == (p - 1) % CAPACITY; }
    var late := Of(st, p).stores[Of(st, p).phase.done];
    var lap;
    var rival := Rival(late.field, late.value);
    acts, lap := LapAndWrite(st, rival);
    st' := LateStore(lap, n, p, rival);
    RunsJoin(st, acts, lap, [Commit(n)] + [Write(p)], st');
    var i :| 0 <= i < |acts| && acts[i].Reserve?;
    acts := acts + ([Commit(n)] + [Write(p)]);
    assert acts[i].Reserve?;
  }

  // The previous producer p only has to commit: let the next one overwrite its words.
  lemma TearByLateCommit(st: State, p: nat) returns (acts: seq<Action>, st': State)
    requires Shape(st) && st.magic == MAGIC && |st.producers| >= CAPACITY
    requires p == |st.producers| + 1 - CAPACITY
    requires Of(st, p).phase == Writing(|Of(st, p).stores|)
    ensures Runs(st, acts, st') && Torn(st', p)
    ensures exists i :: 0 <= i < |acts| && acts[i].Reserve?
  {
    hide Runs;
    hide Torn;
    hide HandlerStores;
    hide Carries;
    var n := |st.producers| + 1;
    assert SlotOf(n) == SlotOf(p) by { assert (n - 1) % CAPACITY == (p - 1) % CAPACITY; }
    var stores := Of(st, p).stores;
    var last := stores[|stores| - 1];
    assert LastStore(stores, last.field) == last.value;
    hide LastStore;
    var rival := Rival(last.field, last.value);
    var lap;
    acts, lap := LapAndWrite(st, rival);
    CarriesAt(lap.slots[SlotOf(p)].words, rival, last.field);
    assert Of(lap, p) == Of(st, p);
    st' := Apply(lap, Commit(p));
    RunsOne(lap, Commit(p));
    RunsJoin(st, acts, lap, [Commit(p)], st');
    var i :| 0 <= i < |acts| && acts[i].Reserve?;
    acts := acts + [Commit(p)];
    assert acts[i].Reserve?;
    TornAt(st', p, last.field);
  }

  /** Whenever the next reservation would break the discipline, some continuation that
      makes it ends with a slot that announces a number it does not hold. */
  lemma LapCanTear(st: State) returns (acts: seq<Action>, st': State, s: nat)
    requires Shape(st) && st.magic == MAGIC && !MayReserve(st)
    requires var p := Of(st, |st.producers| + 1 - CAPACITY); p.phase.Writing? ==> p.phase.done <= |p.stores|
    ensures Runs(st, acts, st') && Torn(st', s)
    ensures exists i :: 0 <= i < |acts| && acts[i].Reserve?
  {
    hide HandlerStores;
    hide Runs;
    hide Torn;
    var p := |st.producers| + 1 - CAPACITY;
    if Of(st, p).phase.Reserved? {
      var mid := Apply(st, Zero(p));
      RunsOne(st, Zero(p));
      var rest;
      rest, st' := TearByLateStore(mid, p);
      s := |st.producers| + 1;
      RunsJoin(st, [Zero(p)], mid, rest, st');
      var i :| 0 <= i < |rest| && rest[i].Reserve?;
      acts := [Zero(p)] + rest;
      assert acts[i + 1].Reserve?;
    } else if Of(st, p).phase.done < |Of(st, p).stores| {
      acts, st' := TearByLateStore(st, p);
      s := |st.producers| + 1;
    } else {
      acts, st' := TearByLateCommit(st, p);
      s := p;
    }
  }

  // An entry event with all words 0.
  ghost function BlankEntry(): (stores: seq<Store>)
    ensures HandlerStores(stores)
  {
    var stores := seq(WORDS, i requires 0 <= i < WORDS => Store(i, 0));
    assert StoresOf(stores, ENTRY);
    stores
  }

  // n entry handlers have reserved and none has done anything else.
  ghost function Stalled(n: nat): State {
    State(MAGIC, seq(CAPACITY, _ => Slot(0, seq(WORDS, _ => 0))), seq(n, _ => Producer(BlankEntry(), Reserved)))
  }

  lemma {:induction false} StalledIsReachable(n: nat) returns (acts: seq<Action>)
    ensures Init(Stalled(0)) && Runs(Stalled(0), acts, Stalled(n))
  {
    if n == 0 {
      acts := [];
    } else {
      acts := StalledIsReachable(n - 1);
      var a := Reserve(BlankEntry());
      hide HandlerStores;
      assert Apply(Stalled(n - 1), a).producers == Stalled(n).producers;
      RunsOne(Stalled(n - 1), a);
      RunsJoin(Stalled(0), acts, Stalled(n - 1), [a], Stalled(n));
      acts := acts + [a];
    }
  }

  /** A concrete failure from a fresh ring: 4096 reservations that stall, one lap, and a
      late store. */
  lemma TornFromStart() returns (acts: seq<Action>, st: State, s: nat)
    ensures Init(Stalled(0)) && Runs(Stalled(0), acts, st) && Torn(st, s)
  {
    acts := StalledIsReachable(CAPACITY);
    var more;
    more, st, s := LapCanTear(Stalled(CAPACITY));
    RunsJoin(Stalled(0), acts, Stalled(CAPACITY), more, st);
    acts := acts + more;
  }
}
