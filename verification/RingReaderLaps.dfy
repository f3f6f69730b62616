/** What the reader makes of a torn slot. */
module RingReaderLaps {
  import opened Words
  import opened EventRing
  import opened EventRingLaps
  import opened TraceLog
  import opened RingReader

  // The states of a finite run, which then stands still.
  ghost function At(st: State, acts: seq<Action>, t: nat): State
    decreases |acts|
  {
    if t == 0 || acts == [] || !Shape(st) || !Enabled(st, acts[0]) then st else At(Apply(st, acts[0]), acts[1..], t - 1)
  }

  lemma {:induction false} EveryStep(st: State, acts: seq<Action>, st': State, t: nat)
    requires Runs(st, acts, st') && Shape(st')
    ensures Next(At(st, acts, t), At(st, acts, t + 1))
    decreases |acts|
  {
    hide Apply;
    if acts == [] {
      StandsStill(st);
    } else if t > 0 {
      EveryStep(Apply(st, acts[0]), acts[1..], st', t - 1);
    }
  }

  lemma StandsStill(st: State)
    requires Shape(st)
    ensures Next(st, st)
  {
    assert Enabled(st, Idle) && st == Apply(st, Idle);
  }

  lemma {:induction false} EndsThere(st: State, acts: seq<Action>, st': State, t: nat)
    requires Runs(st, acts, st') && t >= |acts|
    ensures At(st, acts, t) == st'
    decreases |acts|
  {
    hide Apply;
    if acts != [] {
      EndsThere(Apply(st, acts[0]), acts[1..], st', t - 1);
    }
  }

  /** There is a run of the handlers, and a refresh in it whose three reads all show s, so
      that the event is classified READY for s, although the words read are not what the
      producer of s stored. */
  lemma ReadyCanBeTorn() returns (run: nat -> State, s: nat, e: Copy, t: nat)
    ensures IsRun(run) && s > 0 && e.committed == s
    ensures Bracketed(run, s, s, e, s, t, t, t, t)
    ensures Live(run(t), s) && !Carries(e.words, Of(run(t), s).stores)
  {
    var acts, st;
    acts, st, s := TornFromStart();
    var start := Stalled(0);
    run := (u: nat) => At(start, acts, u);
    forall u: nat ensures Next(run(u), run(u + 1)) {
      EveryStep(start, acts, st, u);
    }
    t := |acts|;
    EndsThere(start, acts, st, t);
    hide Next;
    var slot := st.slots[SlotOf(s)];
    e := Copy(s, slot.words);
    assert run(t) == st && Shape(run(t)) && run(t).slots[SlotOf(s)].committed == s;
    assert SawCommit(run, SlotOf(s), s, t, t);
    forall f | 0 <= f < WORDS ensures SawWord(run, SlotOf(s), f, e.words[f], t, t) {
    }
  }
}
