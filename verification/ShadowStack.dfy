/** The per-thread stack of return addresses that entry_stub pushes and exit_stub pops,
    and the call ids that pair return events with entry events. */
module ShadowStack {
  import opened Words

  const MAX_FRAMES: nat := 256

  datatype Frame = Frame(ret: Word, probe: nat, callId: nat)

  // One thread's saved frames and the id of its latest entry.
  datatype Thread = Thread(stack: seq<Frame>, last: nat)

  const NoFrame: Frame := Frame(0, 0, 0)
  const NewThread: Thread := Thread([], 0)

  // Saving on a full stack does nothing, and the stub does not look at the result.
  function Saved(th: Thread, ret: Word, probe: nat): Thread {
    if |th.stack| >= MAX_FRAMES then th
    else th.(stack := th.stack + [Frame(ret, probe, th.last)])
  }

  function Top(th: Thread): Frame {
    if th.stack == [] then NoFrame else th.stack[|th.stack| - 1]
  }

  function Popped(th: Thread): Thread {
    if th.stack == [] then th else th.(stack := th.stack[..|th.stack| - 1])
  }

  // The process-wide call-id sequence.
  class CallIds {
    var latest: nat

    constructor ()
      ensures latest == 0
    {
      latest := 0;
    }

    method FetchAdd() returns (was: nat)
      modifies this
      ensures was == old(latest) && latest == was + 1
    {
      was := latest;
      latest := was + 1;
    }
  }

  // The thread-local variables of one target thread.
  class ThreadLocals {
    const frames: array<Frame>
    var idx: int
    var last: nat

    ghost predicate Valid()
      reads this
    {
      frames.Length == MAX_FRAMES && 0 <= idx <= MAX_FRAMES
    }

    ghost function View(): Thread
      requires Valid()
      reads this, frames
    {
      Thread(frames[..idx], last)
    }

    constructor ()
      ensures Valid() && fresh(frames) && View() == NewThread
    {
      frames := new Frame[MAX_FRAMES](_ => NoFrame);
      idx, last := 0, 0;
    }

    // The part of the entry handler that concerns call ids.
    method HandleEntry(ids: CallIds) returns (callId: nat)
      requires Valid()
      modifies this`last, ids
      ensures Valid() && View() == old(View()).(last := callId)
      ensures callId == ids.latest == old(ids.latest) + 1
    {
      var was := ids.FetchAdd();
      callId := was + 1;
      last := callId;
    }

    method SaveProbeFrame(ret: Word, probe: nat) returns (full: bool)
      requires Valid()
      modifies this`idx, frames
      ensures Valid() && View() == Saved(old(View()), ret, probe)
      ensures full <==> old(idx) == 256
    {
      if idx >= MAX_FRAMES {
        return true;
      }
      frames[idx] := Frame(ret, probe, last);
      idx := idx + 1;
      assert frames[..idx] == old(frames[..idx]) + [Frame(ret, probe, last)];
      return false;
    }

    method PeekProbeId() returns (probe: nat)
      requires Valid()
      ensures probe == Top(View()).probe
    {
      if idx <= 0 {
        return 0;
      }
      return frames[idx - 1].probe;
    }

    method PeekCallId() returns (callId: nat)
      requires Valid()
      ensures callId == Top(View()).callId
    {
      if idx <= 0 {
        return 0;
      }
      return frames[idx - 1].callId;
    }

    method GetRetAddr() returns (ret: Word)
      requires Valid()
      modifies this`idx
      ensures Valid() && View() == Popped(old(View())) && ret == Top(old(View())).ret
    {
      if idx <= 0 {
        return 0;
      }
      idx := idx - 1;
      return frames[idx].ret;
    }

    // The calls exit_stub makes: a return event is written unless the call id is 0.
    method ExitStub() returns (probe: nat, callId: nat, ret: Word)
      requires Valid()
      modifies this`idx
      ensures Valid() && View() == Popped(old(View()))
      ensures Frame(ret, probe, callId) == Top(old(View()))
    {
      probe := PeekProbeId();
      callId := PeekCallId();
      ret := GetRetAddr();
    }
  }

  /* All threads together. Every operation is one call of one thread; the order in the
     sequence is any interleaving. */

  datatype Op =
    | Entry(tid: nat, probe: nat)
    | Save(tid: nat, ret: Word, probe: nat)
    | Exit(tid: nat)

  datatype State = State(threads: map<nat, Thread>, ids: nat)

  function Of(st: State, t: nat): Thread {
    if t in st.threads then st.threads[t] else NewThread
  }

  function Step(st: State, op: Op): State {
    var th := Of(st, op.tid);
    match op
    case Entry(t, _) => State(st.threads[t := th.(last := st.ids + 1)], st.ids + 1)
    case Save(t, ret, probe) => st.(threads := st.threads[t := Saved(th, ret, probe)])
    case Exit(t) => st.(threads := st.threads[t := Popped(th)])
  }

  function After(ops: seq<Op>, k: nat): State
    requires k <= |ops|
  {
    if k == 0 then State(map[], 0) else Step(After(ops, k - 1), ops[k - 1])
  }

  // Saves minus exits of a thread among the first k operations.
  function Depth(ops: seq<Op>, k: nat, t: nat): int
    requires k <= |ops|
  {
    if k == 0 then 0
    else Depth(ops, k - 1, t) + (if ops[k - 1].tid != t then 0 else if ops[k - 1].Save? then 1 else if ops[k - 1].Exit? then -1 else 0)
  }

  // Thread t never returns through the exit stub more often than it saved, and never has
  // more than 256 calls open.
  ghost predicate WellNested(ops: seq<Op>, n: nat, t: nat) {
    n <= |ops| && forall k: nat | k <= n :: 0 <= Depth(ops, k, t) <= MAX_FRAMES
  }

  // The exit at j ends the call whose frame was saved at i.
  ghost predicate Ends(ops: seq<Op>, i: nat, j: nat) {
    && i < j < |ops| && ops[i].Save? && ops[j].Exit? && ops[i].tid == ops[j].tid
    && Depth(ops, j, ops[i].tid) == Depth(ops, i, ops[i].tid) + 1
    && forall k: nat | i < k <= j :: Depth(ops, k, ops[i].tid) > Depth(ops, i, ops[i].tid)
  }

  lemma {:induction false} DepthIsHeight(ops: seq<Op>, k: nat, t: nat)
    requires WellNested(ops, k, t)
    ensures |Of(After(ops, k), t).stack| == Depth(ops, k, t)
  {
    if k > 0 {
      assert 0 <= Depth(ops, k - 1, t) <= MAX_FRAMES && 0 <= Depth(ops, k, t) <= MAX_FRAMES;
      DepthIsHeight(ops, k - 1, t);
    }
  }

  // A frame stays where it is while the thread's depth stays above it.
  lemma {:induction false} FrameStays(ops: seq<Op>, i: nat, k: nat, t: nat)
    requires WellNested(ops, k, t) && i < k && ops[i].Save? && ops[i].tid == t
    requires forall m: nat | i < m <= k :: Depth(ops, m, t) > Depth(ops, i, t)
    ensures |Of(After(ops, k), t).stack| == Depth(ops, k, t) > Depth(ops, i, t)
    ensures Of(After(ops, k), t).stack[Depth(ops, i, t)] == Frame(ops[i].ret, ops[i].probe, Of(After(ops, i), t).last)
    decreases k
  {
    assert 0 <= Depth(ops, k - 1, t) <= MAX_FRAMES && 0 <= Depth(ops, k, t) <= MAX_FRAMES;
    DepthIsHeight(ops, k, t);
    DepthIsHeight(ops, k - 1, t);
    if i < k - 1 {
      FrameStays(ops, i, k - 1, t);
    }
  }

  /** Whatever other threads do, an exit finds on top the return address and probe id that
      its own entry saved. */
  lemma ExitFindsItsOwnFrame(ops: seq<Op>, i: nat, j: nat)
    requires Ends(ops, i, j) && WellNested(ops, j, ops[i].tid)
    ensures var t := ops[i].tid;
            Top(Of(After(ops, j), t)) == Frame(ops[i].ret, ops[i].probe, Of(After(ops, i), t).last)
  {
    FrameStays(ops, i, j, ops[i].tid);
  }

  /** Every exit of a well nested thread ends exactly one call. */
  lemma {:induction false} EveryExitEndsACall(ops: seq<Op>, j: nat)
    requires j < |ops| && ops[j].Exit? && WellNested(ops, j + 1, ops[j].tid)
    ensures exists i: nat :: Ends(ops, i, j)
  {
    var t := ops[j].tid;
    assert 0 <= Depth(ops, j + 1, t);
    var i := LastSaveBelow(ops, j, t, Depth(ops, j, t));
    assert Ends(ops, i, j);
  }

  ghost function LastSaveBelow(ops: seq<Op>, k: nat, t: nat, d: int): (i: nat)
    requires k <= |ops| && 1 <= d <= Depth(ops, k, t)
    ensures i < k && ops[i].Save? && ops[i].tid == t && Depth(ops, i, t) == d - 1
    ensures forall m: nat | i < m <= k :: Depth(ops, m, t) >= d
  {
    if Depth(ops, k - 1, t) < d then k - 1 else LastSaveBelow(ops, k - 1, t, d)
  }

  lemma OnlyOneCallEnds(ops: seq<Op>, i: nat, i': nat, j: nat)
    requires Ends(ops, i, j) && Ends(ops, i', j)
    ensures i == i'
  {
  }

  /* Call ids. */

  function EntriesIn(ops: seq<Op>, k: nat): nat
    requires k <= |ops|
  {
    if k == 0 then 0 else EntriesIn(ops, k - 1) + if ops[k - 1].Entry? then 1 else 0
  }

  // The call id handed out by the entry at e.
  function CallId(ops: seq<Op>, e: nat): nat
    requires e < |ops|
  {
    EntriesIn(ops, e) + 1
  }

  lemma {:induction false} IdsCountEntries(ops: seq<Op>, k: nat)
    requires k <= |ops|
    ensures After(ops, k).ids == EntriesIn(ops, k)
  {
    if k > 0 {
      IdsCountEntries(ops, k - 1);
    }
  }

  lemma {:induction false} CallIdsGrow(ops: seq<Op>, e: nat, k: nat)
    requires e < k <= |ops| && ops[e].Entry?
    ensures CallId(ops, e) <= EntriesIn(ops, k)
    decreases k
  {
    if e < k - 1 {
      CallIdsGrow(ops, e, k - 1);
    }
  }

  ghost predicate EnteredBetween(ops: seq<Op>, e: nat, i: nat, t: nat) {
    exists m: nat :: e < m < i && m < |ops| && ops[m].Entry? && ops[m].tid == t
  }

  lemma {:induction false} LatestEntry(ops: seq<Op>, e: nat, i: nat)
    requires e < i <= |ops| && ops[e].Entry?
    ensures Of(After(ops, i), ops[e].tid).last == CallId(ops, e) <==> !EnteredBetween(ops, e, i, ops[e].tid)
    ensures Of(After(ops, i), ops[e].tid).last >= CallId(ops, e)
    decreases i
  {
    var t := ops[e].tid;
    IdsCountEntries(ops, i - 1);
    if e < i - 1 {
      LatestEntry(ops, e, i - 1);
      CallIdsGrow(ops, e, i - 1);
      if ops[i - 1].Entry? && ops[i - 1].tid == t {
        assert EnteredBetween(ops, e, i, t);
      } else {
        assert EnteredBetween(ops, e, i, t) <==> EnteredBetween(ops, e, i - 1, t);
      }
    }
  }

  /** A return event carries the call id of its entry exactly if the thread entered no
      other probe between that entry and the save of its frame (which it does only from a
      call action's callee). */
  lemma ReturnCarriesItsEntry(ops: seq<Op>, e: nat, i: nat, j: nat)
    requires Ends(ops, i, j) && WellNested(ops, j, ops[i].tid)
    requires e < i && ops[e].Entry? && ops[e].tid == ops[i].tid
    ensures Top(Of(After(ops, j), ops[i].tid)).callId == CallId(ops, e) <==> !EnteredBetween(ops, e, i, ops[i].tid)
  {
    ExitFindsItsOwnFrame(ops, i, j);
    LatestEntry(ops, e, i);
  }

  /** Call ids are never handed out twice. */
  lemma CallIdsDiffer(ops: seq<Op>, e: nat, e': nat)
    requires e < e' < |ops| && ops[e].Entry? && ops[e'].Entry?
    ensures CallId(ops, e) < CallId(ops, e')
  {
    CallIdsGrow(ops, e, e');
  }

  /* More than 256 open calls: saves on a full stack are dropped, and from then on every
     exit takes the frame of an outer call. */

  // As long as the thread stays at least at depth `floor`, its stack above that depth only
  // gets shorter; pops of an empty stack are the exception, but leave it empty.
  lemma {:induction false} Shrinks(ops: seq<Op>, l: nat, k: nat, t: nat, floor: int)
    requires l <= k <= |ops| && forall m: nat | l <= m <= k :: Depth(ops, m, t) >= floor
    ensures var before, after := |Of(After(ops, l), t).stack| - (Depth(ops, l, t) - floor), |Of(After(ops, k), t).stack| - (Depth(ops, k, t) - floor);
            after <= before || after <= 0
    decreases k
  {
    if l < k {
      Shrinks(ops, l, k - 1, t, floor);
      assert Depth(ops, k, t) >= floor;
    }
  }

  // The c bottom frames stay what they are while the stack does not get shorter than that.
  lemma {:induction false} BottomStays(ops: seq<Op>, i: nat, k: nat, t: nat, c: nat)
    requires i <= k <= |ops| && forall m: nat | i <= m <= k :: |Of(After(ops, m), t).stack| >= c
    ensures |Of(After(ops, i), t).stack| >= c && |Of(After(ops, k), t).stack| >= c
    ensures Of(After(ops, k), t).stack[..c] == Of(After(ops, i), t).stack[..c]
    decreases k
  {
    if i < k {
      BottomStays(ops, i, k - 1, t, c);
      assert |Of(After(ops, k), t).stack| >= c && |Of(After(ops, k - 1), t).stack| >= c;
    }
  }

  // The thread had more than 256 calls open at some point of (i, j].
  ghost predicate Overflows(ops: seq<Op>, i: nat, j: nat, t: nat) {
    j <= |ops| && exists k: nat :: i < k <= j && Depth(ops, k, t) > MAX_FRAMES
  }

  // The first such point.
  lemma {:induction false} FirstOverflow(ops: seq<Op>, i: nat, k: nat, t: nat) returns (l: nat)
    requires i < k <= |ops| && WellNested(ops, i, t) && Depth(ops, k, t) > MAX_FRAMES
    requires forall m: nat | i < m <= k :: Depth(ops, m, t) >= 0
    ensures i < l <= k && WellNested(ops, l - 1, t) && Depth(ops, l, t) == MAX_FRAMES + 1 && ops[l - 1].Save? && ops[l - 1].tid == t
    decreases k
  {
    if Depth(ops, k - 1, t) > MAX_FRAMES {
      assert i < k - 1 by { assert i <= i && Depth(ops, i, t) <= MAX_FRAMES; }
      l := FirstOverflow(ops, i, k - 1, t);
    } else if WellNested(ops, k - 1, t) {
      l := k;
    } else {
      var m: nat :| m <= k - 1 && !(0 <= Depth(ops, m, t) <= MAX_FRAMES);
      assert i < m;
      l := FirstOverflow(ops, i, m, t);
    }
  }

  lemma LengthAtExit(ops: seq<Op>, i: nat, j: nat, l: nat)
    requires Ends(ops, i, j) && WellNested(ops, i, ops[i].tid) && i < l <= j
    ensures |Of(After(ops, j), ops[i].tid).stack| <= |Of(After(ops, l), ops[i].tid).stack|
    ensures |Of(After(ops, j), ops[i].tid).stack| <= |Of(After(ops, l), ops[i].tid).stack| - (Depth(ops, l, ops[i].tid) - Depth(ops, i, ops[i].tid) - 1)
            || Of(After(ops, j), ops[i].tid).stack == []
  {
    var t := ops[i].tid;
    assert Depth(ops, i, t) >= 0;
    Shrinks(ops, l, j, t, Depth(ops, i, t) + 1);
    assert Depth(ops, l, t) > Depth(ops, i, t);
  }

  /** Once the thread has had more than 256 calls open inside a call, the call's frame is
      gone when it exits: what is left is part of the stack below it. */
  lemma OverflowLosesTheFrame(ops: seq<Op>, i: nat, j: nat)
    requires Ends(ops, i, j) && WellNested(ops, i, ops[i].tid) && Overflows(ops, i, j, ops[i].tid)
    ensures Of(After(ops, j), ops[i].tid).stack <= Of(After(ops, i), ops[i].tid).stack
  {
    hide After;
    hide Of;
    hide Depth;
    hide WellNested;
    var t := ops[i].tid;
    OverflowShortens(ops, i, j);
    var c := |Of(After(ops, j), t).stack|;
    forall m: nat | i <= m <= j ensures |Of(After(ops, m), t).stack| >= c {
      if i < m {
        LengthAtExit(ops, i, j, m);
      }
    }
    BottomStays(ops, i, j, t, c);
  }

  lemma OverflowShortens(ops: seq<Op>, i: nat, j: nat)
    requires Ends(ops, i, j) && WellNested(ops, i, ops[i].tid) && Overflows(ops, i, j, ops[i].tid)
    ensures |Of(After(ops, j), ops[i].tid).stack| <= |Of(After(ops, i), ops[i].tid).stack|
  {
    hide After;
    hide Of;
    hide Depth;
    var t := ops[i].tid;
    assert 0 <= Depth(ops, i, t) <= MAX_FRAMES;
    DepthIsHeight(ops, i, t);
    var k: nat :| i < k <= j && Depth(ops, k, t) > MAX_FRAMES;
    var l := FirstOverflow(ops, i, k, t);
    DroppedSave(ops, l, t);
    LengthAtExit(ops, i, j, l);
  }

  // The save that goes beyond 256 is dropped.
  lemma DroppedSave(ops: seq<Op>, l: nat, t: nat)
    requires 0 < l <= |ops| && WellNested(ops, l - 1, t) && Depth(ops, l, t) == MAX_FRAMES + 1
    requires ops[l - 1].Save? && ops[l - 1].tid == t
    ensures |Of(After(ops, l), t).stack| == MAX_FRAMES
  {
    DepthIsHeight(ops, l - 1, t);
  }

  // The call whose frame is saved at i was entered at e, at the same depth.
  ghost predicate Enters(ops: seq<Op>, e: nat, i: nat) {
    && e < i < |ops| && ops[e].Entry? && ops[i].Save? && ops[e].tid == ops[i].tid
    && forall k: nat | e <= k <= i :: Depth(ops, k, ops[i].tid) >= Depth(ops, i, ops[i].tid)
  }

  // No frame carries an id that has not been handed out.
  lemma {:induction false} IdsOfFrames(ops: seq<Op>, k: nat, t: nat)
    requires k <= |ops|
    ensures Of(After(ops, k), t).last <= EntriesIn(ops, k)
    ensures forall f | f in Of(After(ops, k), t).stack :: f.callId <= EntriesIn(ops, k)
  {
    if k > 0 {
      IdsOfFrames(ops, k - 1, t);
      IdsCountEntries(ops, k - 1);
    }
  }

  // A call's frame differs from all frames below it.
  lemma FrameIsNew(ops: seq<Op>, e: nat, i: nat)
    requires Enters(ops, e, i) && WellNested(ops, i, ops[i].tid)
    ensures var t := ops[i].tid;
            var own := Frame(ops[i].ret, ops[i].probe, Of(After(ops, i), t).last);
            own !in Of(After(ops, i), t).stack && own != NoFrame
  {
    var t := ops[i].tid;
    var d := Depth(ops, i, t);
    assert 0 <= d <= MAX_FRAMES;
    forall m: nat | e <= m <= i ensures |Of(After(ops, m), t).stack| == Depth(ops, m, t) >= d {
      assert WellNested(ops, m, t);
      DepthIsHeight(ops, m, t);
    }
    BottomStays(ops, e, i, t, d);
    IdsOfFrames(ops, e, t);
    LatestEntry(ops, e, i);
    forall f | f in Of(After(ops, i), t).stack ensures f.callId < CallId(ops, e) {
      assert f in Of(After(ops, e), t).stack[..d];
    }
  }

  /** An exit finds its own frame exactly if the thread never had more than 256 calls open
      while its call was. */
  lemma OwnFrameExactlyIf(ops: seq<Op>, e: nat, i: nat, j: nat)
    requires Ends(ops, i, j) && Enters(ops, e, i) && WellNested(ops, i, ops[i].tid)
    ensures var t := ops[i].tid;
            var own := Frame(ops[i].ret, ops[i].probe, Of(After(ops, i), t).last);
            Top(Of(After(ops, j), t)) == own <==> !Overflows(ops, i, j, t)
  {
    var t := ops[i].tid;
    if Overflows(ops, i, j, t) {
      OverflowLosesTheFrame(ops, i, j);
      FrameIsNew(ops, e, i);
    } else {
      assert WellNested(ops, j, t) by {
        assert 0 <= Depth(ops, i, t);
        assert forall k: nat | i < k <= j :: Depth(ops, k, t) > Depth(ops, i, t) && Depth(ops, k, t) <= MAX_FRAMES;
      }
      ExitFindsItsOwnFrame(ops, i, j);
    }
  }

  /* A run that does it: n calls of one thread, each inside the last. */

  function Nested(n: nat): (ops: seq<Op>)
    ensures |ops| == 2 * n
  {
    if n == 0 then [] else Nested(n - 1) + [Entry(0, 1), Save(0, 1, 1)]
  }

  lemma {:induction false} NestedAt(n: nat, tail: seq<Op>, k: nat)
    requires k <= n
    ensures Depth(Nested(n) + tail, 2 * k, 0) == k
    ensures k > 0 ==> (Nested(n) + tail)[2 * k - 2] == Entry(0, 1) && (Nested(n) + tail)[2 * k - 1] == Save(0, 1, 1)
    ensures k > 0 ==> Depth(Nested(n) + tail, 2 * k - 1, 0) == k - 1
    decreases n
  {
    var ops := Nested(n) + tail;
    if k < n {
      assert ops == Nested(n - 1) + ([Entry(0, 1), Save(0, 1, 1)] + tail);
      NestedAt(n - 1, [Entry(0, 1), Save(0, 1, 1)] + tail, k);
    } else if n > 0 {
      assert ops == Nested(n - 1) + ([Entry(0, 1), Save(0, 1, 1)] + tail);
      NestedAt(n - 1, [Entry(0, 1), Save(0, 1, 1)] + tail, n - 1);
      assert ops[2 * n - 2] == Entry(0, 1) && ops[2 * n - 1] == Save(0, 1, 1);
    }
  }

  /** n nested calls, for n one more than fits: the last but one was saved, at depth 255,
      but its exit does not find its frame. */
  lemma DeepCallLosesItsFrame(n: nat)
    requires n == MAX_FRAMES + 1
    ensures var ops := Nested(n) + [Exit(0), Exit(0)];
            var i, j := 2 * n - 3, 2 * n + 1;
            && Ends(ops, i, j) && Depth(ops, i, 0) == MAX_FRAMES - 1
            && Top(Of(After(ops, j), 0)) != Frame(ops[i].ret, ops[i].probe, Of(After(ops, i), 0).last)
  {
    hide After;
    hide Of;
    hide Depth;
    hide Nested;
    DeepShape(n);
    var ops := Nested(n) + [Exit(0), Exit(0)];
    OwnFrameExactlyIf(ops, 2 * n - 4, 2 * n - 3, 2 * n + 1);
  }

  lemma DeepShape(n: nat)
    requires n == MAX_FRAMES + 1
    ensures var ops := Nested(n) + [Exit(0), Exit(0)];
            var i, j := 2 * n - 3, 2 * n + 1;
            && Ends(ops, i, j) && Enters(ops, i - 1, i) && WellNested(ops, i, 0) && Overflows(ops, i, j, 0)
            && ops[i].tid == 0 && Depth(ops, i, 0) == MAX_FRAMES - 1
  {
    var ops := Nested(n) + [Exit(0), Exit(0)];
    var i, j := 2 * n - 3, 2 * n + 1;
    NestedDepths(n);
    NestedAt(n, [Exit(0), Exit(0)], n - 1);
    hide Depth;
    hide Nested;
    assert ops[i - 1] == Entry(0, 1) && ops[i] == Save(0, 1, 1) && ops[j] == Exit(0);
    assert Depth(ops, 2 * n, 0) > MAX_FRAMES;
  }

  lemma NestedDepths(n: nat)
    requires n > 0
    ensures var ops := Nested(n) + [Exit(0), Exit(0)];
            && (forall k: nat | k <= 2 * n :: Depth(ops, k, 0) == k / 2)
            && Depth(ops, 2 * n + 1, 0) == n - 1
  {
    var ops := Nested(n) + [Exit(0), Exit(0)];
    forall k: nat | k <= 2 * n ensures Depth(ops, k, 0) == k / 2 {
      NestedAt(n, [Exit(0), Exit(0)], (k + 1) / 2);
    }
    assert ops[2 * n] == Exit(0);
    assert Depth(ops, 2 * n + 1, 0) == Depth(ops, 2 * n, 0) - 1;
  }
}
