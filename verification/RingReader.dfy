/** The trace log as a tiling of the sequence numbers, independent of how the reader
    produces it. */
module TraceLog {
  import opened Words
  import opened EventRing

  // A local copy of one ring slot.
  datatype Copy = Copy(committed: nat, words: seq<Word>)

  datatype Record =
    | Dumped(s: nat, event: Copy)
    | Lost(first: nat, count: nat, writeSeq: nat)

  function First(r: Record): nat {
    match r
    case Dumped(s, _) => s
    case Lost(first, _, _) => first
  }

  function Size(r: Record): nat {
    match r
    case Dumped(_, _) => 1
    case Lost(_, count, _) => count
  }

  predicate Mentions(r: Record, k: nat) {
    First(r) <= k < First(r) + Size(r)
  }

  // How many sequence numbers the log accounts for.
  function Covered(log: seq<Record>): nat {
    if log == [] then 0 else Covered(log[..|log| - 1]) + Size(log[|log| - 1])
  }

  // Each record starts right after everything before it.
  ghost predicate Tiled(log: seq<Record>) {
    log == [] ||
    (var front, last := log[..|log| - 1], log[|log| - 1];
     Tiled(front) && Size(last) >= 1 && First(last) == Covered(front) + 1)
  }

  function DumpedCount(log: seq<Record>): nat {
    if log == [] then 0
    else DumpedCount(log[..|log| - 1]) + (if log[|log| - 1].Dumped? then 1 else 0)
  }

  function LostCount(log: seq<Record>): nat {
    if log == [] then 0
    else LostCount(log[..|log| - 1]) + (if log[|log| - 1].Lost? then log[|log| - 1].count else 0)
  }

  lemma TiledAppend(log: seq<Record>, r: Record)
    requires Tiled(log) && Size(r) >= 1 && First(r) == Covered(log) + 1
    ensures Tiled(log + [r]) && Covered(log + [r]) == Covered(log) + Size(r)
  {
    assert (log + [r])[..|log|] == log;
  }

  lemma {:induction false} RecordsInRange(log: seq<Record>, i: nat)
    requires Tiled(log) && i < |log|
    ensures 1 <= First(log[i]) && First(log[i]) + Size(log[i]) - 1 <= Covered(log)
  {
    if i < |log| - 1 {
      RecordsInRange(log[..|log| - 1], i);
    }
  }

  /** Every number up to the end is mentioned by exactly one record. */
  lemma {:induction false} ExactlyOneRecord(log: seq<Record>, k: nat) returns (i: nat)
    requires Tiled(log) && 1 <= k <= Covered(log)
    ensures i < |log| && Mentions(log[i], k)
    ensures forall j | 0 <= j < |log| && Mentions(log[j], k) :: j == i
  {
    var front := log[..|log| - 1];
    if k > Covered(front) {
      i := |log| - 1;
      forall j | 0 <= j < |log| && Mentions(log[j], k) ensures j == i {
        if j < |front| {
          RecordsInRange(front, j);
        }
      }
    } else {
      i := ExactlyOneRecord(front, k);
      assert log[i] == front[i];
      forall j | 0 <= j < |log| && Mentions(log[j], k) ensures j == i {
        if j < |front| {
          assert front[j] == log[j];
        }
      }
    }
  }

  /** Records, and so dumped events, appear in strictly increasing order. */
  lemma {:induction false} RecordsIncrease(log: seq<Record>, i: nat, j: nat)
    requires Tiled(log) && i < j < |log|
    ensures First(log[i]) + Size(log[i]) <= First(log[j])
  {
    if j == |log| - 1 {
      RecordsInRange(log[..|log| - 1], i);
    } else {
      RecordsIncrease(log[..|log| - 1], i, j);
    }
  }

  /** Nothing is double counted and nothing is forgotten. */
  lemma {:induction false} DumpedPlusLost(log: seq<Record>)
    requires Tiled(log)
    ensures DumpedCount(log) + LostCount(log) == Covered(log)
  {
    if log != [] {
      DumpedPlusLost(log[..|log| - 1]);
    }
  }
}

/** The tracer's poll: header read, loss detection, double-read snapshots in batches, and
    the in-order drain. The target keeps running all the while. */
module RingReader {
  import opened Words
  import opened EventRing
  import opened TraceLog

  const IOV_MAX: nat := 256

  datatype Status = Ready | Pending | Overwritten | ReadError

  // The committed word j held v at some instant of [lo, hi].
  ghost predicate SawCommit(run: nat -> State, j: nat, v: nat, lo: nat, hi: nat)
    requires j < CAPACITY
  {
    exists t: nat :: lo <= t <= hi && Shape(run(t)) && run(t).slots[j].committed == v
  }

  // Each word of the copy was read at some instant of [lo, hi], not necessarily the same one.
  ghost predicate SawWord(run: nat -> State, j: nat, f: nat, v: Word, lo: nat, hi: nat)
    requires j < CAPACITY && f < WORDS
  {
    exists t: nat :: lo <= t <= hi && Shape(run(t)) && run(t).slots[j].words[f] == v
  }

  ghost predicate SawEvent(run: nat -> State, j: nat, e: Copy, lo: nat, hi: nat)
    requires j < CAPACITY
  {
    && |e.words| == WORDS
    && SawCommit(run, j, e.committed, lo, hi)
    && forall f | 0 <= f < WORDS :: SawWord(run, j, f, e.words[f], lo, hi)
  }

  // The target process seen through remote reads: every access happens at some instant
  // not earlier than the previous one, and any access may fail.
  class Target {
    const run: nat -> State
    var now: nat
    // Reads that failed or found no trace buffer.
    var troubles: nat

    constructor (run: nat -> State)
      ensures this.run == run && now == 0
    {
      this.run := run;
      now, troubles := 0, 0;
    }

    // Other threads of the target run for a while.
    method Wait()
      modifies this`now
      ensures old(now) <= now
    {
      var later: nat :| now <= later;
      now := later;
    }

    method ReadHeader() returns (ok: bool, magic: Word, writeSeq: nat)
      modifies this
      ensures old(now) <= now
      ensures ok ==> writeSeq == |run(now).producers|
      ensures troubles == old(troubles) + if ok && magic == MAGIC then 0 else 1
    {
      Wait();
      magic := run(now).magic;
      Wait();
      writeSeq := |run(now).producers|;
      ok := *;
      troubles := troubles + if ok && magic == MAGIC then 0 else 1;
    }

    method ReadCommitted(j: nat) returns (ok: bool, v: nat)
      requires IsRun(run) && j < CAPACITY
      modifies this
      ensures old(now) <= now
      ensures ok ==> Shape(run(now)) && run(now).slots[j].committed == v
      ensures troubles == old(troubles) + if ok then 0 else 1
    {
      Wait();
      CommitsNamedAlways(run, now);
      v := run(now).slots[j].committed;
      ok := *;
      troubles := troubles + if ok then 0 else 1;
    }

    // Copies one event, word after word.
    method ReadEvent(j: nat) returns (ok: bool, e: Copy)
      requires IsRun(run) && j < CAPACITY
      modifies this
      ensures old(now) <= now
      ensures ok ==> SawEvent(run, j, e, old(now), now)
      ensures ok == (troubles == old(troubles)) && old(troubles) <= troubles
    {
      var committed;
      ok, committed := ReadCommitted(j);
      assert ok ==> SawCommit(run, j, committed, old(now), now);
      var words: seq<Word> := [];
      var f := 0;
      while f < WORDS
        invariant f <= WORDS && |words| == f
        invariant old(now) <= now
        invariant ok ==> SawCommit(run, j, committed, old(now), now)
        invariant troubles == old(troubles) + if ok then 0 else 1
        invariant forall g | 0 <= g < f :: SawWord(run, j, g, words[g], old(now), now)
      {
        Wait();
        CommitsNamedAlways(run, now);
        words := words + [run(now).slots[j].words[f]];
        f := f + 1;
      }
      e := Copy(committed, words);
      var good: bool := *;
      troubles := troubles + if good then 0 else 1;
      ok := ok && good;
    }
  }

  // What one refresh establishes for the slot of s: both commit reads bracket the copy.
  ghost predicate Bracketed(run: nat -> State, s: nat, b: nat, e: Copy, a: nat, lo: nat, mid: nat, end: nat, hi: nat)
    requires s > 0
  {
    && lo <= mid <= end <= hi
    && SawCommit(run, SlotOf(s), b, lo, mid)
    && SawEvent(run, SlotOf(s), e, mid, end)
    && SawCommit(run, SlotOf(s), a, end, hi)
  }

  ghost predicate RecordSound(run: nat -> State, now: nat, r: Record) {
    match r
    case Dumped(s, e) =>
      s > 0 && (Disciplined(run) ==> Live(run(now), s) && Carries(e.words, Of(run(now), s).stores))
    case Lost(first, count, w) =>
      count > 0 && first + count - 1 + CAPACITY <= |run(now).producers|
  }

  ghost predicate LogSound(run: nat -> State, now: nat, log: seq<Record>) {
    forall i | 0 <= i < |log| :: RecordSound(run, now, log[i])
  }

  lemma RecordSoundLater(run: nat -> State, now: nat, later: nat, r: Record)
    requires IsRun(run) && now <= later && RecordSound(run, now, r)
    ensures RecordSound(run, later, r)
  {
    ExtendsAlways(run, now, later);
  }

  lemma LogSoundLater(run: nat -> State, now: nat, later: nat, log: seq<Record>)
    requires IsRun(run) && now <= later && LogSound(run, now, log)
    ensures LogSound(run, later, log)
    ensures |run(now).producers| <= |run(later).producers|
  {
    ExtendsAlways(run, now, later);
    forall i | 0 <= i < |log| ensures RecordSound(run, later, log[i]) {
      RecordSoundLater(run, now, later, log[i]);
    }
  }

  /** In a disciplined run a slot classified READY for s carries exactly what the
      producer of s stored. */
  lemma ReadyIsWhole(run: nat -> State, s: nat, e: Copy, lo: nat, mid: nat, end: nat, hi: nat)
    requires IsRun(run) && Disciplined(run) && s > 0
    requires Bracketed(run, s, s, e, s, lo, mid, end, hi)
    ensures Live(run(hi), s) && Carries(e.words, Of(run(hi), s).stores)
  {
    var j := SlotOf(s);
    var tb: nat :| lo <= tb <= mid && Shape(run(tb)) && run(tb).slots[j].committed == s;
    var ta: nat :| end <= ta <= hi && Shape(run(ta)) && run(ta).slots[j].committed == s;
    StableBetween(run, s, tb, tb, ta);
    ExtendsAlways(run, tb, hi);
    var stores := Of(run(tb), s).stores;
    forall f | 0 <= f < WORDS && LastStore(stores, f) >= 0
      ensures e.words[f] == LastStore(stores, f)
    {
      assert SawWord(run, j, f, e.words[f], mid, end);
      var t: nat :| mid <= t <= end && Shape(run(t)) && run(t).slots[j].words[f] == e.words[f];
      StableBetween(run, s, tb, t, ta);
      ExtendsAlways(run, tb, t);
    }
  }

  /** Any value above s seen in a refresh of s proves that s + CAPACITY has been reserved. */
  lemma OverwrittenIsALapAhead(run: nat -> State, s: nat, b: nat, e: Copy, a: nat, lo: nat, mid: nat, end: nat, hi: nat)
    requires IsRun(run) && s > 0
    requires Bracketed(run, s, b, e, a, lo, mid, end, hi)
    requires b > s || e.committed > s || a > s
    ensures s + CAPACITY <= |run(hi).producers|
  {
    var j := SlotOf(s);
    var v := if b > s then b else if e.committed > s then e.committed else a;
    var t: nat :| lo <= t <= hi && Shape(run(t)) && run(t).slots[j].committed == v;
    LaterValueIsALapAhead(run, t, s);
    ExtendsAlways(run, t, hi);
  }

  // At some instant of [lo, hi] the slot of s did not yet show s.
  ghost predicate NotYet(run: nat -> State, s: nat, lo: nat, hi: nat)
    requires s > 0
  {
    exists t: nat :: lo <= t <= hi && Shape(run(t)) && run(t).slots[SlotOf(s)].committed < s
  }

  lemma NotYetWider(run: nat -> State, s: nat, lo: nat, lo': nat, hi: nat)
    requires s > 0 && lo' <= lo && NotYet(run, s, lo, hi)
    ensures NotYet(run, s, lo', hi)
  {
  }

  class Reader {
    const target: Target
    const before: array<nat>
    const events: array<Copy>
    const after: array<nat>
    var lastSeq: nat
    var log: seq<Record>

    ghost predicate Valid()
      reads this, target
    {
      && before.Length == CAPACITY && events.Length == CAPACITY && after.Length == CAPACITY
      && before != after
      && IsRun(target.run)
      && Tiled(log) && Covered(log) == lastSeq
      && lastSeq <= |target.run(target.now).producers|
      && LogSound(target.run, target.now, log)
    }

    constructor (target: Target)
      requires IsRun(target.run)
      ensures Valid() && fresh(before) && fresh(events) && fresh(after)
      ensures this.target == target && lastSeq == 0 && log == []
    {
      this.target := target;
      before := new nat[CAPACITY];
      events := new Copy[CAPACITY];
      after := new nat[CAPACITY];
      lastSeq := 0;
      log := [];
    }

    // One pass over the committed words of [start, start + count), 256 at a time.
    method ReadCommitSnapshot(start: nat, count: nat, commits: array<nat>) returns (ok: bool)
      requires commits.Length == CAPACITY && IsRun(target.run)
      modifies target, commits
      ensures old(target.now) <= target.now
      ensures ok ==> 0 < start && count <= CAPACITY
      ensures forall j | 0 <= j < CAPACITY && !InWindow(start, count, j) :: commits[j] == old(commits[j])
      ensures old(target.troubles) <= target.troubles
      ensures !ok && 0 < start && count <= CAPACITY ==> old(target.troubles) < target.troubles
      ensures ok ==> forall s | start <= s < start + count ::
                SawCommit(target.run, SlotOf(s), commits[SlotOf(s)], old(target.now), target.now)
    {
      hide IsRun;
      hide Shape;
      if start == 0 || count > CAPACITY {
        return false;
      }
      var offset := 0;
      while offset < count
        invariant old(target.now) <= target.now && old(target.troubles) == target.troubles
        invariant forall j | 0 <= j < CAPACITY && !InWindow(start, count, j) :: commits[j] == old(commits[j])
        invariant forall s | start <= s < start + count && s < start + offset ::
                    SawCommit(target.run, SlotOf(s), commits[SlotOf(s)], old(target.now), target.now)
        decreases count - offset
      {
        var batch := if count - offset > IOV_MAX then IOV_MAX else count - offset;
        var i := 0;
        while i < batch
          invariant i <= batch
          invariant old(target.now) <= target.now && old(target.troubles) == target.troubles
          invariant forall j | 0 <= j < CAPACITY && !InWindow(start, count, j) :: commits[j] == old(commits[j])
          invariant forall s | start <= s < start + offset + i ::
                      SawCommit(target.run, SlotOf(s), commits[SlotOf(s)], old(target.now), target.now)
        {
          var s := start + offset + i;
          var good, v := target.ReadCommitted(SlotOf(s));
          if !good {
            return false;
          }
          forall r | start <= r < s ensures SlotOf(r) != SlotOf(s) {
            DifferentSlots(r, s);
          }
          assert InWindow(start, count, SlotOf(s));
          commits[SlotOf(s)] := v;
          i := i + 1;
        }
        offset := offset + IOV_MAX;
      }
      return true;
    }

    // One contiguous stretch of slots, starting with the one of s.
    method ReadRun(s: nat, length: nat) returns (ok: bool)
      requires events.Length == CAPACITY && IsRun(target.run)
      requires 0 < s && SlotOf(s) + length <= CAPACITY
      modifies target, events
      ensures old(target.now) <= target.now && old(target.troubles) <= target.troubles
      ensures ok == (old(target.troubles) == target.troubles)
      ensures ok ==> forall r | s <= r < s + length ::
                SawEvent(target.run, SlotOf(r), events[SlotOf(r)], old(target.now), target.now)
      ensures forall j | 0 <= j < CAPACITY && !(SlotOf(s) <= j < SlotOf(s) + length) :: events[j] == old(events[j])
    {
      hide IsRun;
      hide SawEvent;
      var slot := SlotOf(s);
      var i := 0;
      while i < length
        invariant i <= length
        invariant old(target.now) <= target.now && old(target.troubles) == target.troubles
        invariant forall j | slot <= j < slot + i :: SawEvent(target.run, j, events[j], old(target.now), target.now)
        invariant forall j | 0 <= j < CAPACITY && !(slot <= j < slot + length) :: events[j] == old(events[j])
      {
        ghost var now := target.now;
        var good, e := target.ReadEvent(slot + i);
        if !good {
          return false;
        }
        forall j | slot <= j < slot + i ensures SawEvent(target.run, j, events[j], old(target.now), target.now) {
          SawEventWider(target.run, j, events[j], old(target.now), now, old(target.now), target.now);
        }
        SawEventWider(target.run, slot + i, e, now, target.now, old(target.now), target.now);
        events[slot + i] := e;
        i := i + 1;
      }
      forall r | s <= r < s + length ensures slot <= SlotOf(r) < slot + length {
        SlotsAreContiguous(s, r - s);
      }
      return true;
    }

    // One pass over the events of [start, start + count), split where the ring wraps.
    method ReadEventSnapshot(start: nat, count: nat) returns (ok: bool)
      requires events.Length == CAPACITY && IsRun(target.run)
      modifies target, events
      ensures old(target.now) <= target.now && old(target.troubles) <= target.troubles
      ensures !ok && 0 < start && count <= CAPACITY ==> old(target.troubles) < target.troubles
      ensures ok ==> forall s | start <= s < start + count && s > 0 ::
                SawEvent(target.run, SlotOf(s), events[SlotOf(s)], old(target.now), target.now)
      ensures forall j | 0 <= j < CAPACITY && !InWindow(start, count, j) :: events[j] == old(events[j])
    {
      hide IsRun;
      hide SawEvent;
      if start == 0 || count > CAPACITY {
        return false;
      }
      var s, remaining := start, count;
      while remaining > 0
        invariant start <= s && s + remaining == start + count
        invariant old(target.now) <= target.now && old(target.troubles) == target.troubles
        invariant forall r | start <= r < s ::
                    SawEvent(target.run, SlotOf(r), events[SlotOf(r)], old(target.now), target.now)
        invariant forall j | 0 <= j < CAPACITY && !InWindow(start, count, j) :: events[j] == old(events[j])
        decreases remaining
      {
        var slot := SlotOf(s);
        var length := if CAPACITY - slot > remaining then remaining else CAPACITY - slot;
        ghost var now, before := target.now, events[..];
        ok := ReadRun(s, length);
        StretchInWindow(start, count, s, length);
        if !ok {
          return;
        }
        forall r | start <= r < s + length
          ensures SawEvent(target.run, SlotOf(r), events[SlotOf(r)], old(target.now), target.now)
        {
          if r < s {
            StretchMisses(start, r, s, length);
            assert events[SlotOf(r)] == before[SlotOf(r)];
            SawEventWider(target.run, SlotOf(r), events[SlotOf(r)], old(target.now), now, old(target.now), target.now);
          } else {
            SawEventWider(target.run, SlotOf(r), events[SlotOf(r)], now, target.now, old(target.now), target.now);
          }
        }
        s, remaining := s + length, remaining - length;
      }
      return true;
    }

    // What the last refresh left for the slot of s, as of this instant.
    ghost predicate Refreshed(s: nat, since: nat)
      requires before.Length == CAPACITY && events.Length == CAPACITY && after.Length == CAPACITY
      reads target, before, events, after
    {
      s > 0 && exists mid: nat, end: nat ::
        Bracketed(target.run, s, before[SlotOf(s)], events[SlotOf(s)], after[SlotOf(s)], since, mid, end, target.now)
    }

    method Refresh(start: nat, count: nat) returns (ok: bool)
      requires Valid()
      modifies target, before, events, after
      ensures Valid() && old(target.now) <= target.now && old(target.troubles) <= target.troubles
      ensures !ok && 0 < start && count <= CAPACITY ==> old(target.troubles) < target.troubles
      ensures ok ==> forall s | start <= s < start + count :: Refreshed(s, old(target.now))
    {
      ghost var t0 := target.now;
      if count == 0 {
        return true;
      }
      ok := ReadCommitSnapshot(start, count, before);
      ghost var t1 := target.now;
      if ok {
        ok := ReadEventSnapshot(start, count);
      }
      ghost var t2 := target.now;
      if ok {
        ok := ReadCommitSnapshot(start, count, after);
      }
      LogSoundLater(target.run, t0, target.now, log);
      if ok {
        forall s | start <= s < start + count ensures Refreshed(s, t0) {
          assert Bracketed(target.run, s, before[SlotOf(s)], events[SlotOf(s)], after[SlotOf(s)], t0, t1, t2, target.now);
        }
      }
    }

    /** READY exactly if all three sequence numbers read are s, OVERWRITTEN exactly if one of
        them is greater, PENDING otherwise; and what that says of the producers. */
    method SnapshotSlot(s: nat, ghost since: nat) returns (status: Status, event: Copy)
      requires Valid() && Refreshed(s, since)
      ensures status != ReadError
      ensures var i := (s - 1) % 4096;
              && (status == Ready <==> before[i] == s && events[i].committed == s && after[i] == s)
              && (status == Overwritten <==> before[i] > s || events[i].committed > s || after[i] > s)
      ensures status == Ready ==>
                RecordSound(target.run, target.now, Dumped(s, event)) && event == events[SlotOf(s)] && event.committed == s
      ensures status == Overwritten ==> s + CAPACITY <= |target.run(target.now).producers|
      ensures status == Pending ==> NotYet(target.run, s, since, target.now)
    {
      event := events[SlotOf(s)];
      var b, a := before[SlotOf(s)], after[SlotOf(s)];
      ghost var mid: nat, end: nat :| Bracketed(target.run, s, b, event, a, since, mid, end, target.now);
      if b == s && event.committed == s && a == s {
        if Disciplined(target.run) {
          ReadyIsWhole(target.run, s, event, since, mid, end, target.now);
        }
        return Ready, event;
      }
      if b > s || event.committed > s || a > s {
        OverwrittenIsALapAhead(target.run, s, b, event, a, since, mid, end, target.now);
        return Overwritten, event;
      }
      return Pending, event;
    }

    // Records that everything from the next number up to start - 1 is gone.
    method LogLost(start: nat, writeSeq: nat)
      requires Valid() && lastSeq + 1 < start
      requires start - 1 + CAPACITY <= |target.run(target.now).producers|
      modifies this
      ensures Valid() && lastSeq == start - 1
      ensures log == old(log) + [Lost(old(lastSeq) + 1, start - 1 - old(lastSeq), writeSeq)]
    {
      var r := Lost(lastSeq + 1, start - (lastSeq + 1), writeSeq);
      TiledAppend(log, r);
      log := log + [r];
      lastSeq := start - 1;
    }

    method Dump(event: Copy)
      requires Valid() && RecordSound(target.run, target.now, Dumped(lastSeq + 1, event))
      requires lastSeq + 1 <= |target.run(target.now).producers|
      modifies this
      ensures Valid() && lastSeq == old(lastSeq) + 1
      ensures log == old(log) + [Dumped(lastSeq, event)]
    {
      hide IsRun;
      hide RecordSound;
      hide Tiled;
      var r := Dumped(lastSeq + 1, event);
      TiledAppend(log, r);
      log := log + [r];
      lastSeq := lastSeq + 1;
    }

    // Reads the header; the log stays sound while the target runs on.
    method ReadHeader() returns (ok: bool, writeSeq: nat)
      requires Valid()
      modifies target
      ensures Valid() && old(target.now) <= target.now
      ensures target.troubles == old(target.troubles) + if ok then 0 else 1
      ensures |target.run(old(target.now)).producers| <= |target.run(target.now).producers|
      ensures ok ==> writeSeq == |target.run(target.now).producers|
    {
      var magic;
      ok, magic, writeSeq := target.ReadHeader();
      LogSoundLater(target.run, old(target.now), target.now, log);
      ok := ok && magic == MAGIC;
    }

    // The OVERWRITTEN case: jump past the lost numbers and snapshot the new window. Being
    // overwritten proves the lap, so the source's fallback break is never taken.
    method Resynchronise(s: nat) returns (ok: bool, start: nat, writeSeq: nat, ghost since: nat)
      requires Valid() && s == lastSeq + 1
      requires s + CAPACITY <= |target.run(target.now).producers|
      modifies this, target, before, events, after
      ensures Valid() && old(log) <= log && old(target.now) <= target.now
      ensures old(target.troubles) + (if ok then 0 else 1) <= target.troubles
      ensures s <= start == lastSeq + 1 && old(target.now) <= since
      ensures ok ==> s < start <= writeSeq <= |target.run(target.now).producers|
      ensures ok ==> |target.run(old(target.now)).producers| <= writeSeq
      ensures ok ==> forall r | start <= r <= writeSeq :: Refreshed(r, since)
    {
      start, since := s, target.now;
      ok, writeSeq := ReadHeader();
      if ok {
        if writeSeq >= s && writeSeq - s >= CAPACITY {
          start := writeSeq - CAPACITY + 1;
          LogLost(start, writeSeq);
          since := target.now;
          ok := Refresh(start, writeSeq - start + 1);
          ExtendsAlways(target.run, since, target.now);
        } else {
          assert false;
        }
      }
    }

    // One round of the loop: dumps s, or finds it pending, or moves past what was lost.
    method Round(s: nat, writeSeq: nat, ghost since: nat)
      returns (ok: bool, pending: bool, s': nat, writeSeq': nat, ghost since': nat)
      requires Valid() && s == lastSeq + 1 && s <= writeSeq <= |target.run(target.now).producers|
      requires forall r | s <= r <= writeSeq :: Refreshed(r, since)
      modifies this, target, before, events, after
      ensures Valid() && old(log) <= log && old(target.now) <= target.now
      ensures old(target.troubles) + (if ok then 0 else 1) <= target.troubles
      ensures ok && pending ==> s' == s == lastSeq + 1 && NotYet(target.run, s, since, target.now)
      ensures ok && !pending ==>
                && s < s' == lastSeq + 1 && writeSeq <= writeSeq' <= |target.run(target.now).producers|
                && (since' == since || old(target.now) <= since')
                && forall r | s' <= r <= writeSeq' :: Refreshed(r, since')
    {
      hide LogSound;
      hide Tiled;
      hide Bracketed;
      hide IsRun;
      ok, pending, s', writeSeq', since' := true, false, s, writeSeq, since;
      assert Refreshed(s, since);
      var status, event := SnapshotSlot(s, since);
      if status == Pending {
        pending := true;
      } else if status == Ready {
        Dump(event);
        s' := s + 1;
      } else {
        ok, s', writeSeq', since' := Resynchronise(s);
      }
    }

    // Consumes the snapshot in order, for so many rounds of the loop. Every round moves s
    // forward, so the loop ends once the rounds exceed all reservations of the run.
    method Drain(first: nat, limit: nat, ghost fromTime: nat, rounds: nat) returns (ok: bool, finished: bool)
      requires Valid() && first == lastSeq + 1 && first <= limit + 1 && fromTime <= target.now
      requires limit <= |target.run(target.now).producers|
      requires forall r | first <= r <= limit :: Refreshed(r, fromTime)
      modifies this, target, before, events, after
      ensures Valid() && old(log) <= log && old(target.now) <= target.now
      ensures old(target.troubles) + (if ok then 0 else 1) <= target.troubles
      ensures ok && finished ==> limit <= lastSeq || NotYet(target.run, lastSeq + 1, fromTime, target.now)
      ensures forall bound: nat | AtMost(target.run, bound) && bound < rounds :: finished
    {
      hide LogSound;
      hide Tiled;
      hide Bracketed;
      hide IsRun;
      hide NotYet;
      hide Refreshed;
      var s, writeSeq := first, limit;
      ghost var since := fromTime;
      ok, finished := true, false;
      var k := 0;
      while s <= writeSeq && k < rounds
        invariant Valid() && s == lastSeq + 1 && first + k <= s && k <= rounds
        invariant writeSeq <= |target.run(target.now).producers|
        invariant forall r | s <= r <= writeSeq :: Refreshed(r, since)
        invariant old(log) <= log && old(target.now) <= target.now && old(target.troubles) <= target.troubles
        invariant limit <= writeSeq && fromTime <= since && fromTime <= target.now && ok
        decreases rounds - k
      {
        var pending;
        ghost var was := since;
        ok, pending, s, writeSeq, since := Round(s, writeSeq, since);
        if !ok {
          return false, true;
        }
        if pending {
          NotYetWider(target.run, s, was, fromTime, target.now);
          return true, true;
        }
        k := k + 1;
      }
      finished := s > writeSeq;
      assert forall bound: nat | AtMost(target.run, bound) :: |target.run(target.now).producers| <= bound;
    }

    /** One poll, for any number of rounds of its loop. Whatever it returns, and also when
        stopped in the middle, the log tiles 1..lastSeq, dumped events are whole in a
        disciplined run, and lost numbers have been lapped. A poll fails only after a read
        that failed or found no trace buffer; one that finishes stops early only at a
        number it saw uncommitted; and it does finish if the rounds exceed all reservations
        the target ever makes. */
    method Poll(rounds: nat) returns (ok: bool, finished: bool)
      requires Valid()
      modifies this, target, before, events, after
      ensures Valid() && old(log) <= log && old(target.now) <= target.now
      ensures !ok ==> old(target.troubles) < target.troubles
      ensures ok && finished ==> |target.run(old(target.now)).producers| <= lastSeq
                                 || NotYet(target.run, lastSeq + 1, old(target.now), target.now)
      ensures forall bound: nat | AtMost(target.run, bound) && bound < rounds :: finished
    {
      hide LogSound;
      hide Tiled;
      hide Bracketed;
      hide IsRun;
      hide NotYet;
      hide Valid;
      hide Refreshed;
      var writeSeq;
      ok, writeSeq := ReadHeader();
      finished := true;
      if !ok || writeSeq <= lastSeq {
        return;
      }
      var s := lastSeq + 1;
      if writeSeq - lastSeq > CAPACITY {
        s := writeSeq - CAPACITY + 1;
        LogLost(s, writeSeq);
      }
      ghost var since := target.now;
      ok := Refresh(s, writeSeq - s + 1);
      if ok {
        ExtendsAlways(target.run, since, target.now);
        ok, finished := Drain(s, writeSeq, since, rounds);
        if ok && finished && lastSeq < writeSeq {
          NotYetWider(target.run, lastSeq + 1, since, old(target.now), target.now);
        }
      }
    }
  }

  // The target never reserves more than this many events.
  ghost predicate AtMost(run: nat -> State, bound: nat) {
    forall t: nat :: |run(t).producers| <= bound
  }

  lemma SlotsAreContiguous(s: nat, i: nat)
    requires s > 0 && SlotOf(s) + i < CAPACITY
    ensures SlotOf(s + i) == SlotOf(s) + i
  {
    assert s + i - 1 == CAPACITY * ((s - 1) / CAPACITY) + (SlotOf(s) + i);
  }

  // Slot j belongs to some number of [start, start + count).
  ghost predicate InWindow(start: nat, count: nat, j: nat) {
    exists s: nat :: start <= s < start + count && s > 0 && SlotOf(s) == j
  }

  lemma SawEventWider(run: nat -> State, j: nat, e: Copy, lo: nat, hi: nat, lo': nat, hi': nat)
    requires j < CAPACITY && SawEvent(run, j, e, lo, hi) && lo' <= lo && hi <= hi'
    ensures SawEvent(run, j, e, lo', hi')
  {
    forall f | 0 <= f < WORDS ensures SawWord(run, j, f, e.words[f], lo', hi') {
      assert SawWord(run, j, f, e.words[f], lo, hi);
    }
  }

  // The slots of a stretch are those of its numbers.
  lemma StretchInWindow(start: nat, count: nat, s: nat, length: nat)
    requires 0 < start <= s && s + length <= start + count && SlotOf(s) + length <= CAPACITY
    ensures forall j | SlotOf(s) <= j < SlotOf(s) + length :: InWindow(start, count, j)
  {
    forall j | SlotOf(s) <= j < SlotOf(s) + length ensures InWindow(start, count, j) {
      SlotsAreContiguous(s, j - SlotOf(s));
      assert SlotOf(s + (j - SlotOf(s))) == j;
    }
  }

  // An earlier number of the window has its slot elsewhere.
  lemma StretchMisses(start: nat, r: nat, s: nat, length: nat)
    requires 0 < start <= r < s && s + length <= start + CAPACITY && SlotOf(s) + length <= CAPACITY
    ensures !(SlotOf(s) <= SlotOf(r) < SlotOf(s) + length)
  {
    if SlotOf(s) <= SlotOf(r) < SlotOf(s) + length {
      var i := SlotOf(r) - SlotOf(s);
      SlotsAreContiguous(s, i);
      DifferentSlots(r, s + i);
      assert false;
    }
  }
}
