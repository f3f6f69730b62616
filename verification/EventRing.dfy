/** The shared event ring: any number of payload threads produce into it while the
    tracer reads it.

    Every reservation is one producer, named by its commit sequence number (1, 2, ...).
    Producers advance one shared-memory access at a time, in any interleaving, under
    sequential consistency. */
module EventRing {
  import opened Words

  const CAPACITY: nat := 4096
  const MAGIC: Word := 0x5a54425546464552

  // Words of one event after committed_seq: probe_id, event_type, call_id, timestamp_ns,
  // tid, cpu_id, args[6], fp_args[8].
  const WORDS: nat := 20

  // One plain store of one event word.
  datatype Store = Store(field: nat, value: Word)

  // Where the producer of one sequence number stands.
  datatype Phase = Reserved | Writing(done: nat) | Committed

  // `stores` is everything this producer writes, in order; entry, return and call events
  // write different words and leave the others as they were.
  datatype Producer = Producer(stores: seq<Store>, phase: Phase)

  datatype Slot = Slot(committed: nat, words: seq<Word>)

  // write_seq is |producers|: each fetch-add appends one producer.
  datatype State = State(magic: Word, slots: seq<Slot>, producers: seq<Producer>)

  datatype Action =
    | Reserve(stores: seq<Store>)
    | Zero(s: nat)
    | Write(s: nat)
    | Commit(s: nat)
    | Scribble(magic: Word)
    | Idle

  function SlotOf(s: nat): (j: nat)
    requires s > 0
    ensures j < CAPACITY
  {
    (s - 1) % CAPACITY
  }

  // Event types, stored in word 1.
  const EVENT_TYPE: nat := 1
  const ENTRY: Word := 0
  const RETURN: Word := 1
  const CALL: Word := 2

  // The words a handler stores, in order: the header, then all arguments for an entry, one
  // of each kind for a return, and callee, result, count and six arguments for a call.
  function Fields(kind: Word): (fs: seq<nat>)
    ensures |fs| >= 8 && fs[EVENT_TYPE] == EVENT_TYPE && forall i | 0 <= i < |fs| :: fs[i] < WORDS
  {
    var header := [0, 1, 2, 3, 4, 5];
    if kind == ENTRY then header + [6, 7, 8, 9, 10, 11, 12, 13, 14, 15, 16, 17, 18, 19]
    else if kind == RETURN then header + [6, 12]
    else header + [6, 7, 8, 12, 13, 14, 15, 16, 17]
  }

  // An entry stores every word, a return and a call some of them.
  lemma FieldsAre()
    ensures forall f: nat | f < 20 :: f in Fields(0)
    ensures forall f: nat :: f in Fields(1) <==> f <= 6 || f == 12
    ensures forall f: nat :: f in Fields(2) <==> f <= 8 || 12 <= f <= 17
  {
  }

  ghost predicate StoresOf(stores: seq<Store>, kind: Word) {
    && |stores| == |Fields(kind)| && stores[EVENT_TYPE].value == kind
    && forall i | 0 <= i < |stores| :: stores[i].field == Fields(kind)[i]
  }

  // What the entry, return and call handlers store.
  ghost predicate HandlerStores(stores: seq<Store>)
    ensures HandlerStores(stores) ==> ValidStores(stores)
  {
    StoresOf(stores, ENTRY) || StoresOf(stores, RETURN) || StoresOf(stores, CALL)
  }

  ghost predicate ValidStores(stores: seq<Store>) {
    |stores| >= 8 && forall i | 0 <= i < |stores| :: stores[i].field < WORDS
  }

  ghost predicate Shape(st: State) {
    && |st.slots| == CAPACITY
    && (forall j | 0 <= j < CAPACITY :: |st.slots[j].words| == WORDS)
    && (forall i | 0 <= i < |st.producers| :: ValidStores(st.producers[i].stores))
  }

  ghost predicate Live(st: State, s: nat) {
    1 <= s <= |st.producers|
  }

  // The producer of sequence number s.
  function Of(st: State, s: nat): (p: Producer)
    requires 1 <= s <= |st.producers|
  {
    st.producers[s - 1]
  }

  ghost predicate Init(st: State) {
    && Shape(st)
    && st.magic == MAGIC
    && st.producers == []
    && forall j | 0 <= j < CAPACITY :: st.slots[j].committed == 0
  }

  ghost predicate Enabled(st: State, a: Action)
    requires Shape(st)
  {
    match a
    case Reserve(stores) => st.magic == MAGIC && HandlerStores(stores)
    case Zero(s) => Live(st, s) && Of(st, s).phase.Reserved?
    case Write(s) => Live(st, s) && Of(st, s).phase.Writing? && Of(st, s).phase.done < |Of(st, s).stores|
    case Commit(s) => Live(st, s) && Of(st, s).phase.Writing? && Of(st, s).phase.done == |Of(st, s).stores|
    case Scribble(_) => true
    case Idle => true
  }

  ghost function WithPhase(st: State, s: nat, phase: Phase): State
    requires Live(st, s)
  {
    st.(producers := st.producers[s - 1 := Of(st, s).(phase := phase)])
  }

  ghost function WithSlot(st: State, s: nat, slot: Slot): State
    requires Shape(st) && Live(st, s)
  {
    st.(slots := st.slots[SlotOf(s) := slot])
  }

  ghost function Apply(st: State, a: Action): State
    requires Shape(st) && Enabled(st, a)
  {
    match a
    case Reserve(stores) => st.(producers := st.producers + [Producer(stores, Reserved)])
    case Zero(s) =>
      WithPhase(WithSlot(st, s, st.slots[SlotOf(s)].(committed := 0)), s, Writing(0))
    case Write(s) =>
      var p := Of(st, s);
      var store := p.stores[p.phase.done];
      var slot := st.slots[SlotOf(s)];
      WithPhase(WithSlot(st, s, slot.(words := slot.words[store.field := store.value])),
                s, Writing(p.phase.done + 1))
    case Commit(s) =>
      WithPhase(WithSlot(st, s, st.slots[SlotOf(s)].(committed := s)), s, Committed)
    case Scribble(magic) => st.(magic := magic)
    case Idle => st
  }

  ghost predicate Next(st: State, st': State) {
    Shape(st) && exists a: Action :: Enabled(st, a) && st' == Apply(st, a)
  }

  // A run gives the shared memory at every instant.
  ghost predicate IsRun(run: nat -> State) {
    && Init(run(0))
    && forall t: nat :: Next(run(t), run(t + 1))
  }

  // What whole-event reads rely on and the payload does not enforce: the next
  // reservation does not fall on a slot whose previous producer has not committed.
  ghost predicate MayReserve(st: State) {
    var n := |st.producers| + 1;
    n > CAPACITY ==> Of(st, n - CAPACITY).phase.Committed?
  }

  ghost predicate Disciplined(run: nat -> State) {
    forall t: nat :: |run(t + 1).producers| > |run(t).producers| ==> MayReserve(run(t))
  }

  // The value the stores leave in word f, if they touch it.
  ghost function LastStore(stores: seq<Store>, f: nat): (w: int)
    ensures (exists i :: 0 <= i < |stores| && stores[i].field == f) <==> w >= 0
  {
    if stores == [] then -1
    else if stores[|stores| - 1].field == f then
      assert stores[|stores| - 1].field == f;
      stores[|stores| - 1].value
    else
      var front := stores[..|stores| - 1];
      assert forall i | 0 <= i < |stores| && stores[i].field == f :: i < |front| && front[i].field == f;
      LastStore(front, f)
  }

  // Every word the stores touch holds the value they left there.
  ghost predicate Carries(words: seq<Word>, stores: seq<Store>) {
    |words| == WORDS && forall f | 0 <= f < WORDS :: LastStore(stores, f) >= 0 ==> words[f] == LastStore(stores, f)
  }

  lemma CarriesNextStore(words: seq<Word>, stores: seq<Store>, k: nat)
    requires ValidStores(stores) && k < |stores| && Carries(words, stores[..k])
    ensures Carries(words[stores[k].field := stores[k].value], stores[..k + 1])
  {
    assert stores[..k + 1][..k] == stores[..k];
  }

  // ---------------------------------------------------------------------------
  // Facts of every run, disciplined or not

  ghost predicate CommitsNamed(st: State) {
    Shape(st) &&
    forall j | 0 <= j < CAPACITY && st.slots[j].committed != 0 ::
      && Live(st, st.slots[j].committed)
      && SlotOf(st.slots[j].committed) == j
      && Of(st, st.slots[j].committed).phase.Committed?
  }

  lemma CommitsNamedStep(st: State, a: Action)
    requires CommitsNamed(st) && Enabled(st, a)
    ensures CommitsNamed(Apply(st, a))
  {
    hide HandlerStores;
  }

  // Producers never disappear, keep their stores, and stay committed once committed.
  ghost predicate Extends(st: State, st': State) {
    && |st.producers| <= |st'.producers|
    && forall s | Live(st, s) ::
         && Of(st', s).stores == Of(st, s).stores
         && (Of(st, s).phase.Committed? ==> Of(st', s).phase.Committed?)
  }

  lemma {:induction false} CommitsNamedAlways(run: nat -> State, t: nat)
    requires IsRun(run)
    ensures CommitsNamed(run(t))
  {
    if t > 0 {
      CommitsNamedAlways(run, t - 1);
      var a :| Enabled(run(t - 1), a) && run(t - 1 + 1) == Apply(run(t - 1), a);
      CommitsNamedStep(run(t - 1), a);
    } else {
      assert Init(run(0));
    }
  }

  lemma ExtendsStep(st: State, a: Action)
    requires Shape(st) && Enabled(st, a)
    ensures Extends(st, Apply(st, a))
  {
  }

  lemma {:induction false} ExtendsAlways(run: nat -> State, t: nat, u: nat)
    requires IsRun(run) && t <= u
    ensures Extends(run(t), run(u))
    decreases u - t
  {
    hide HandlerStores;
    if t < u {
      ExtendsAlways(run, t, u - 1);
      assert Next(run(u - 1), run(u - 1 + 1));
      var a :| Enabled(run(u - 1), a) && run(u) == Apply(run(u - 1), a);
      ExtendsStep(run(u - 1), a);
      assert forall s | Live(run(t), s) :: Live(run(u - 1), s);
    }
  }

  // A value in the slot of s that is greater than s is at least a whole lap ahead, and
  // that lap has been reserved.
  lemma LaterValueIsALapAhead(run: nat -> State, t: nat, s: nat)
    requires IsRun(run) && s > 0
    ensures Shape(run(t))
    ensures var c := run(t).slots[SlotOf(s)].committed;
            c > s ==> s + CAPACITY <= c <= |run(t).producers|
  {
    CommitsNamedAlways(run, t);
    var c := run(t).slots[SlotOf(s)].committed;
    if c > s {
      assert SlotOf(c) == SlotOf(s);
      SameSlotApart(s, c);
    }
  }

  lemma SameSlotApart(a: nat, b: nat)
    requires 0 < a < b && SlotOf(a) == SlotOf(b)
    ensures a + CAPACITY <= b
  {
    assert (b - 1) - (a - 1) == CAPACITY * ((b - 1) / CAPACITY - (a - 1) / CAPACITY);
  }

  lemma DifferentSlots(a: nat, b: nat)
    requires 0 < a < b < a + CAPACITY
    ensures SlotOf(a) != SlotOf(b)
  {
    if SlotOf(a) == SlotOf(b) {
      SameSlotApart(a, b);
    }
  }

  // ---------------------------------------------------------------------------
  // Facts of disciplined runs

  // s is the latest reservation of its slot.
  ghost predicate Owns(st: State, s: nat) {
    Live(st, s) && s + CAPACITY > |st.producers|
  }

  ghost predicate OwnerView(st: State, s: nat)
    requires Shape(st) && Owns(st, s)
  {
    var p := Of(st, s);
    var slot := st.slots[SlotOf(s)];
    match p.phase
    case Reserved =>
      if s > CAPACITY then slot.committed == s - CAPACITY && Carries(slot.words, Of(st, s - CAPACITY).stores)
      else slot.committed == 0
    case Writing(k) => k <= |p.stores| && slot.committed == 0 && Carries(slot.words, p.stores[..k])
    case Committed => slot.committed == s && Carries(slot.words, p.stores)
  }

  ghost predicate Orderly(st: State) {
    && Shape(st)
    && (forall s | Live(st, s) && !Owns(st, s) :: Of(st, s).phase.Committed?)
    && (forall s | Owns(st, s) :: OwnerView(st, s))
    && (forall j | |st.producers| <= j < CAPACITY :: st.slots[j].committed == 0)
  }

  lemma OnlyOwnersMove(st: State, s: nat)
    requires Orderly(st) && Live(st, s) && !Of(st, s).phase.Committed?
    ensures Owns(st, s)
  {
  }

  lemma OwnersAreApart(st: State, s: nat, r: nat)
    requires Owns(st, s) && Owns(st, r) && s != r
    ensures SlotOf(s) != SlotOf(r)
  {
    if s < r { DifferentSlots(s, r); } else { DifferentSlots(r, s); }
  }

  // A slot and its producers unchanged means its owner's view unchanged.
  lemma KeepsView(st: State, st': State, s: nat)
    requires Shape(st) && Shape(st') && Owns(st, s) && Owns(st', s) && OwnerView(st, s)
    requires st'.slots[SlotOf(s)] == st.slots[SlotOf(s)] && Of(st', s) == Of(st, s)
    requires s > CAPACITY ==> Of(st', s - CAPACITY).stores == Of(st, s - CAPACITY).stores
    ensures OwnerView(st', s)
  {
  }

  lemma OrderlyReserve(st: State, stores: seq<Store>)
    requires Orderly(st) && Enabled(st, Reserve(stores)) && MayReserve(st)
    ensures Orderly(Apply(st, Reserve(stores)))
  {
    hide HandlerStores;
    hide Carries;
    var st' := Apply(st, Reserve(stores));
    var n := |st.producers| + 1;
    forall s: nat | Owns(st', s) ensures OwnerView(st', s) {
      if s < n {
        assert Owns(st, s) && OwnerView(st, s);
        KeepsView(st, st', s);
      } else if n > CAPACITY {
        var prev := n - CAPACITY;
        assert Owns(st, prev) && OwnerView(st, prev);
        assert (n - 1) % CAPACITY == (prev - 1) % CAPACITY;
        assert Of(st', prev) == Of(st, prev);
      } else {
        assert SlotOf(n) == n - 1;
      }
    }
    forall s: nat | Live(st', s) && !Owns(st', s) ensures Of(st', s).phase.Committed? {
      if Owns(st, s) {
        assert s == n - CAPACITY;
      }
    }
  }

  // The producer that moves keeps its own view.
  lemma MoverView(st: State, a: Action)
    requires Shape(st) && Enabled(st, a) && (a.Zero? || a.Write? || a.Commit?)
    requires Owns(st, a.s) && OwnerView(st, a.s)
    ensures var st' := Apply(st, a); Shape(st') && Owns(st', a.s) && OwnerView(st', a.s)
  {
    var p := Of(st, a.s);
    if a.Write? {
      CarriesNextStore(st.slots[SlotOf(a.s)].words, p.stores, p.phase.done);
    } else if a.Commit? {
      assert p.stores[..|p.stores|] == p.stores;
    } else {
      assert p.stores[..0] == [];
    }
  }

  lemma OrderlyMove(st: State, a: Action)
    requires Orderly(st) && Enabled(st, a) && (a.Zero? || a.Write? || a.Commit?)
    ensures Orderly(Apply(st, a))
  {
    hide Carries;
    var st' := Apply(st, a);
    OnlyOwnersMove(st, a.s);
    assert OwnerView(st, a.s);
    MoverView(st, a);
    forall r: nat | Owns(st', r) ensures OwnerView(st', r) {
      assert Owns(st, r) && OwnerView(st, r);
      if r != a.s {
        OwnersAreApart(st, a.s, r);
        KeepsView(st, st', r);
      }
    }
    forall r: nat | Live(st', r) && !Owns(st', r) ensures Of(st', r).phase.Committed? {
      assert Live(st, r) && !Owns(st, r);
    }
    assert |st.producers| < CAPACITY ==> SlotOf(a.s) == a.s - 1;
  }

  lemma {:induction false} OrderlyAlways(run: nat -> State, t: nat)
    requires IsRun(run) && Disciplined(run)
    ensures Orderly(run(t))
  {
    if t == 0 {
      assert Init(run(0));
    } else {
      OrderlyAlways(run, t - 1);
      assert Next(run(t - 1), run(t - 1 + 1));
      var a :| Enabled(run(t - 1), a) && run(t) == Apply(run(t - 1), a);
      match a
      case Reserve(stores) =>
        assert |run(t - 1 + 1).producers| > |run(t - 1).producers|;
        OrderlyReserve(run(t - 1), stores);
      case Zero(_) => OrderlyMove(run(t - 1), a);
      case Write(_) => OrderlyMove(run(t - 1), a);
      case Commit(_) => OrderlyMove(run(t - 1), a);
      case Scribble(m) => OrderlyScribble(run(t - 1), m);
      case Idle =>
    }
  }

  lemma OrderlyScribble(st: State, magic: Word)
    requires Orderly(st)
    ensures Orderly(st.(magic := magic))
  {
    var st' := st.(magic := magic);
    forall s: nat | Owns(st', s) ensures OwnerView(st', s) {
      assert Owns(st, s) && OwnerView(st, s);
      assert Of(st', s) == Of(st, s);
      if s > CAPACITY {
        assert Of(st', s - CAPACITY) == Of(st, s - CAPACITY);
      }
    }
    forall s: nat | Live(st', s) && !Owns(st', s) ensures Of(st', s).phase.Committed? {
      assert Live(st, s) && !Owns(st, s);
    }
  }

  lemma CommittedSlotCarries(st: State, s: nat)
    requires Orderly(st) && CommitsNamed(st) && s > 0 && st.slots[SlotOf(s)].committed == s
    ensures Live(st, s) && Carries(st.slots[SlotOf(s)].words, Of(st, s).stores)
  {
    assert Live(st, s);
    if Owns(st, s) {
      assert OwnerView(st, s);
    } else {
      // A later owner of the slot must still be in its Reserved phase.
      var r := LatestOwner(st, s);
      assert OwnerView(st, r);
    }
  }

  lemma {:induction false} LatestOwner(st: State, s: nat) returns (r: nat)
    requires Live(st, s)
    ensures Owns(st, r) && r >= s && SlotOf(r) == SlotOf(s)
    decreases |st.producers| - s
  {
    if Owns(st, s) {
      r := s;
    } else {
      assert (s + CAPACITY - 1) % CAPACITY == (s - 1) % CAPACITY;
      r := LatestOwner(st, s + CAPACITY);
    }
  }

  // Once s has been committed and replaced, its number never comes back to the slot.
  lemma {:induction false} NeverRestored(run: nat -> State, s: nat, t: nat, u: nat)
    requires IsRun(run) && s > 0 && t <= u
    requires Shape(run(t)) && Live(run(t), s) && Of(run(t), s).phase.Committed?
    requires run(t).slots[SlotOf(s)].committed != s
    ensures Shape(run(u)) && run(u).slots[SlotOf(s)].committed != s
    decreases u - t
  {
    hide HandlerStores;
    hide Carries;
    if t < u {
      NeverRestored(run, s, t, u - 1);
      ExtendsAlways(run, t, u - 1);
      assert Next(run(u - 1), run(u - 1 + 1));
      var a :| Enabled(run(u - 1), a) && run(u) == Apply(run(u - 1), a);
      CommitsNamedAlways(run, u);
    }
  }

  /** The double read is sound: if the slot shows s before and after, then at every
      instant in between it holds exactly what the producer of s stored. */
  lemma StableBetween(run: nat -> State, s: nat, before: nat, t: nat, after: nat)
    requires IsRun(run) && Disciplined(run) && s > 0
    requires before <= t <= after
    requires Shape(run(before)) && run(before).slots[SlotOf(s)].committed == s
    requires Shape(run(after)) && run(after).slots[SlotOf(s)].committed == s
    ensures Shape(run(t)) && Live(run(t), s)
    ensures run(t).slots[SlotOf(s)].committed == s
    ensures Carries(run(t).slots[SlotOf(s)].words, Of(run(t), s).stores)
  {
    CommitsNamedAlways(run, before);
    CommitsNamedAlways(run, t);
    ExtendsAlways(run, before, t);
    if run(t).slots[SlotOf(s)].committed != s {
      NeverRestored(run, s, t, after);
      assert false;
    }
    OrderlyAlways(run, t);
    CommittedSlotCarries(run(t), s);
  }
}
