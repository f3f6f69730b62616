/** Stopping every thread of the target, and moving stopped threads out of the bytes that
    a patch overwrites, while the target keeps running, cloning and exiting. */
module ThreadGroup {
  const THREADS: nat := 256
  const STOP_PASSES: nat := 16
  const MAX_SINGLE_STEPS: nat := 8

  datatype Mode = Running | Stopped

  datatype Task = Task(mode: Mode, pc: nat)

  type Tasks = map<int, Task>

  // One entry of the thread table; tid 0 is a cleared entry.
  datatype Entry = Entry(tid: int, stopped: bool)

  const Cleared: Entry := Entry(0, false)

  // How the target can change by itself: a stopped task stays as it is or disappears, a
  // running one does anything, and new tasks, with ids never used before, appear only
  // while some task runs.
  predicate Evolves(before: Tasks, seen: set<int>, after: Tasks) {
    && (forall t | t in after && t in before && before[t].mode == Stopped :: after[t] == before[t])
    && (forall t | t in after && t !in before :: t !in seen && t > 0)
    && ((forall t | t in before :: before[t].mode == Stopped) ==> forall t | t in after :: t in before)
  }

  // The target after a possible move: an impossible one does not happen.
  function Moved(tasks: Tasks, seen: set<int>, next: Tasks): (r: Tasks)
    ensures Evolves(tasks, seen, r)
  {
    if Evolves(tasks, seen, next) then next else tasks
  }

  ghost predicate AllStopped(tasks: Tasks) {
    forall t | t in tasks :: tasks[t].mode == Stopped
  }

  // Nothing but exits happened.
  ghost predicate OnlyExits(before: Tasks, after: Tasks) {
    forall t | t in after :: t in before && after[t] == before[t]
  }

  datatype Answer = Done | Gone | Failed

  // An instant of the target, and how many calls have failed so far.
  datatype Instant = Instant(tasks: Tasks, seen: set<int>, failures: nat)

  // Nothing is forgotten, and tasks that are new have new ids: a task that is gone stays
  // gone, and if no id was added no task appeared.
  ghost predicate Later(was: Instant, now: Instant) {
    && was.seen <= now.seen && was.failures <= now.failures
    && forall t | t in now.tasks && t !in was.tasks :: t > 0 && t !in was.seen && t in now.seen
  }

  lemma LaterThen(first: Instant, middle: Instant, last: Instant)
    requires Later(first, middle) && Later(middle, last)
    ensures Later(first, last)
  {
  }

  lemma NobodyNew(was: Instant, now: Instant)
    requires Later(was, now)
    ensures now.seen == was.seen ==> now.tasks.Keys <= was.tasks.Keys
  {
    if now.seen == was.seen {
      forall t | t in now.tasks ensures t in was.tasks {
      }
    }
  }

  // The kernel's side. `moves` and `errors` are arbitrary: what the target does between
  // two calls of the tracer, and which calls fail for another reason than a missing task.
  // `pending` are the tasks that will stop, being interrupted or stepped: a wait for
  // another one need not end. `stepped` counts single steps, `listings` reads of the list.
  class World {
    const moves: nat -> Tasks
    const errors: nat -> bool
    var clock: nat
    var tasks: Tasks
    var seen: set<int>
    var failures: nat
    var pending: set<int>
    var stepped: nat
    var listings: nat

    ghost function Now(): Instant
      reads this
    {
      Instant(tasks, seen, failures)
    }

    ghost predicate Valid()
      reads this
    {
      forall t | t in tasks :: t in seen && t > 0
    }

    constructor (moves: nat -> Tasks, errors: nat -> bool, tasks: Tasks)
      requires forall t | t in tasks :: t > 0
      ensures Valid() && this.tasks == tasks && this.moves == moves && this.errors == errors
      ensures clock == 0 && seen == tasks.Keys && failures == 0 && pending == {} && stepped == 0 && listings == 0
    {
      this.moves, this.errors, this.tasks := moves, errors, tasks;
      clock, seen, failures, pending, stepped, listings := 0, tasks.Keys, 0, {}, 0, 0;
    }

    method Elapse()
      requires Valid()
      modifies this`tasks, this`seen, this`clock
      ensures Valid() && Evolves(old(tasks), old(seen), tasks) && seen == old(seen) + tasks.Keys
      ensures tasks == Moved(old(tasks), old(seen), moves(old(clock))) && clock == old(clock) + 1
      ensures AllStopped(old(tasks)) ==> OnlyExits(old(tasks), tasks)
      ensures Later(old(Now()), Now())
    {
      var next := moves(clock);
      if Evolves(tasks, seen, next) {
        tasks := next;
        seen := seen + next.Keys;
      }
      assert seen == old(seen) + tasks.Keys by {
        forall t | t in tasks.Keys ensures t in seen {}
      }
      clock := clock + 1;
    }

    // Any call about one task: time passes, the task may be gone, the call may fail.
    method Call(tid: int) returns (answer: Answer)
      requires Valid()
      modifies this`tasks, this`seen, this`clock, this`failures
      ensures Valid() && Evolves(old(tasks), old(seen), tasks) && seen == old(seen) + tasks.Keys
      ensures tasks == Moved(old(tasks), old(seen), moves(old(clock))) && clock == old(clock) + 1
      ensures AllStopped(old(tasks)) ==> OnlyExits(old(tasks), tasks)
      ensures answer == Gone <==> tid !in tasks
      ensures Later(old(Now()), Now()) && failures == old(failures) + if answer == Failed then 1 else 0
    {
      Elapse();
      if tid !in tasks {
        return Gone;
      }
      if errors(clock) {
        failures := failures + 1;
        return Failed;
      }
      return Done;
    }

    // Asks the task to stop.
    method Interrupt(tid: int) returns (answer: Answer)
      requires Valid()
      modifies this`tasks, this`seen, this`clock, this`failures, this`pending
      ensures Valid() && Evolves(old(tasks), old(seen), tasks) && seen == old(seen) + tasks.Keys
      ensures AllStopped(old(tasks)) ==> OnlyExits(old(tasks), tasks)
      ensures answer == Gone <==> tid !in tasks
      ensures Later(old(Now()), Now()) && failures == old(failures) + if answer == Failed then 1 else 0
      ensures pending == if answer == Done then old(pending) + {tid} else old(pending)
    {
      answer := Call(tid);
      if answer == Done {
        pending := pending + {tid};
      }
    }

    // The listing of /proc/pid/task, taken at one instant.
    method List() returns (tids: set<int>)
      requires Valid()
      modifies this`tasks, this`seen, this`clock, this`listings
      ensures Valid() && Evolves(old(tasks), old(seen), tasks) && seen == old(seen) + tasks.Keys
      ensures tasks == Moved(old(tasks), old(seen), moves(old(clock))) && clock == old(clock) + 1
      ensures tids == tasks.Keys && Later(old(Now()), Now()) && listings == old(listings) + 1
    {
      listings := listings + 1;
      Elapse();
      tids := tasks.Keys;
    }

    // Waits until the task has stopped or is gone.
    method WaitStop(tid: int) returns (answer: Answer)
      requires Valid() && tid in pending
      modifies this`tasks, this`seen, this`clock, this`failures, this`pending
      ensures Valid() && seen == old(seen) + tasks.Keys
      ensures exists mid: Tasks :: Evolves(old(tasks), old(seen), mid) && Halted(mid, tasks, tid)
      ensures AllStopped(old(tasks)) ==> OnlyExits(old(tasks), tasks)
      ensures answer == Gone <==> tid !in tasks
      ensures answer == Done ==> tasks[tid].mode == Stopped
      ensures Later(old(Now()), Now()) && failures == old(failures) + if answer == Failed then 1 else 0
      ensures pending == if answer == Done then old(pending) - {tid} else old(pending)
    {
      answer := Call(tid);
      ghost var mid := tasks;
      if answer == Done {
        tasks := tasks[tid := tasks[tid].(mode := Stopped)];
        pending := pending - {tid};
      }
      assert Evolves(old(tasks), old(seen), mid) && Halted(mid, tasks, tid);
    }

    method GetPc(tid: int) returns (answer: Answer, pc: nat)
      requires Valid()
      modifies this`tasks, this`seen, this`clock, this`failures
      ensures Valid() && Evolves(old(tasks), old(seen), tasks) && seen == old(seen) + tasks.Keys
      ensures AllStopped(old(tasks)) ==> OnlyExits(old(tasks), tasks)
      ensures answer == Gone <==> tid !in tasks
      ensures answer == Done ==> pc == tasks[tid].pc
      ensures Later(old(Now()), Now()) && failures == old(failures) + if answer == Failed then 1 else 0
    {
      answer := Call(tid);
      pc := if answer == Done then tasks[tid].pc else 0;
    }

    // The task runs again, for one instruction.
    method SingleStep(tid: int) returns (answer: Answer)
      requires Valid()
      modifies this
      ensures Valid() && seen == old(seen) + tasks.Keys
      ensures exists mid: Tasks :: Evolves(old(tasks), old(seen), mid) && Resumed(mid, tasks, tid)
      ensures answer == Gone <==> tid !in tasks
      ensures answer != Done ==> Evolves(old(tasks), old(seen), tasks)
      ensures Later(old(Now()), Now()) && failures == old(failures) + if answer == Failed then 1 else 0
      ensures pending == if answer == Done then old(pending) + {tid} else old(pending)
      ensures stepped == old(stepped) + if answer == Done then 1 else 0
    {
      answer := Call(tid);
      ghost var mid := tasks;
      if answer == Done {
        tasks := tasks[tid := tasks[tid].(mode := Running)];
        pending, stepped := pending + {tid}, stepped + 1;
      }
      assert Evolves(old(tasks), old(seen), mid) && Resumed(mid, tasks, tid);
    }
  }

  ghost predicate Halted(mid: Tasks, after: Tasks, tid: int) {
    after == mid || (tid in mid && after == mid[tid := mid[tid].(mode := Stopped)])
  }

  ghost predicate Resumed(mid: Tasks, after: Tasks, tid: int) {
    after == mid || (tid in mid && after == mid[tid := mid[tid].(mode := Running)])
  }

  /* What the table says about the tasks. */

  predicate Tracked(threads: seq<Entry>, t: int) {
    t > 0 && exists i | 0 <= i < |threads| :: threads[i].tid == t
  }

  ghost function Tids(threads: seq<Entry>): set<int> {
    set i | 0 <= i < |threads| :: threads[i].tid
  }

  // The entries a table needs if every one of these tasks has to be in it.
  ghost function Needed(threads: seq<Entry>, tids: set<int>): nat {
    |threads| + |tids - Tids(threads)|
  }

  ghost predicate AllTracked(threads: seq<Entry>, tids: set<int>) {
    forall t | t in tids :: Tracked(threads, t)
  }

  lemma NeededLess(threads: seq<Entry>, tids: set<int>, more: set<int>)
    requires tids <= more
    ensures Needed(threads, tids) <= Needed(threads, more)
  {
    SubsetSize(tids - Tids(threads), more - Tids(threads));
  }

  lemma SubsetSize(a: set<int>, b: set<int>)
    requires a <= b
    ensures |a| <= |b|
  {
    assert b == a + (b - a);
  }

  lemma Inhabited(a: set<int>)
    requires a != {}
    ensures exists t :: t in a
  {
    assert (forall t :: t !in a) ==> a == {};
  }

  // One more task has had its turn and may have taken an entry.
  lemma NeededTurn(threads: seq<Entry>, tids: set<int>, rest: set<int>, t: int)
    requires t in rest && rest <= tids && t > 0
    ensures Needed(threads, tids - (rest - {t})) == Needed(threads, tids - rest) + if Tracked(threads, t) then 0 else 1
    ensures Needed(threads, tids - (rest - {t})) <= Needed(threads, tids)
  {
    NeededLess(threads, tids - (rest - {t}), tids);
    TrackedTid(threads, t);
    TurnSize(tids, rest, t, Tids(threads));
  }

  lemma TurnSize(tids: set<int>, rest: set<int>, t: int, known: set<int>)
    requires t in rest && rest <= tids
    ensures |(tids - (rest - {t})) - known| == |(tids - rest) - known| + if t in known then 0 else 1
  {
    var done, next := (tids - rest) - known, (tids - (rest - {t})) - known;
    if t in known {
      assert next == done;
    } else {
      assert t !in done;
      assert next == done + {t};
    }
  }

  lemma TrackedTid(threads: seq<Entry>, t: int)
    requires t > 0
    ensures Tracked(threads, t) <==> t in Tids(threads)
  {
  }

  // Entries marked stopped are stopped, unless they are gone; all ids were seen.
  ghost predicate Truthful(threads: seq<Entry>, tasks: Tasks, seen: set<int>) {
    forall i | 0 <= i < |threads| && threads[i].tid > 0 ::
      && threads[i].tid in seen
      && (threads[i].stopped && threads[i].tid in tasks ==> tasks[threads[i].tid].mode == Stopped)
  }

  // No task has two entries.
  ghost predicate Unique(threads: seq<Entry>) {
    forall i, k | 0 <= i < k < |threads| && threads[i].tid > 0 :: threads[i].tid != threads[k].tid
  }

  lemma StaysTruthful(threads: seq<Entry>, before: Tasks, seen: set<int>, after: Tasks)
    requires Truthful(threads, before, seen) && Evolves(before, seen, after)
    ensures Truthful(threads, after, seen + after.Keys)
  {
  }

  function Compacted(threads: seq<Entry>): seq<Entry> {
    if threads == [] then []
    else
      var n := |threads| - 1;
      Compacted(threads[..n]) + if threads[n].tid <= 0 then [] else [threads[n]]
  }

  lemma {:induction false} CompactedLength(threads: seq<Entry>)
    ensures |Compacted(threads)| <= |threads|
  {
    if threads != [] {
      CompactedLength(threads[..|threads| - 1]);
    }
  }

  /** Compaction keeps exactly the entries with an id. */
  lemma {:induction false} CompactedKeeps(threads: seq<Entry>, e: Entry)
    ensures e in Compacted(threads) <==> e in threads && e.tid > 0
  {
    if threads != [] {
      var n := |threads| - 1;
      CompactedKeeps(threads[..n], e);
      assert threads == threads[..n] + [threads[n]];
    }
  }

  lemma {:induction false} CompactedUnique(threads: seq<Entry>)
    requires Unique(threads)
    ensures Unique(Compacted(threads))
  {
    if threads != [] {
      var n := |threads| - 1;
      CompactedUnique(threads[..n]);
      forall i | 0 <= i < |Compacted(threads[..n])| ensures Compacted(threads[..n])[i] in threads[..n] && Compacted(threads[..n])[i].tid > 0 {
        CompactedKeeps(threads[..n], Compacted(threads[..n])[i]);
      }
    }
  }

  lemma CompactedTruthful(threads: seq<Entry>, tasks: Tasks, seen: set<int>)
    requires Truthful(threads, tasks, seen)
    ensures Truthful(Compacted(threads), tasks, seen)
  {
    forall i | 0 <= i < |Compacted(threads)|
      ensures Compacted(threads)[i] in threads
    {
      CompactedKeeps(threads, Compacted(threads)[i]);
    }
  }

  // The bytes a probe overwrites.
  datatype Region = Region(id: nat, start: nat, len: nat)

  predicate Covers(r: Region, pc: nat) {
    r.id != 0 && r.len != 0 && r.start <= pc < r.start + r.len
  }

  predicate Inside(regions: seq<Region>, pc: nat) {
    pc != 0 && exists i | 0 <= i < |regions| :: Covers(regions[i], pc)
  }

  // No address in the bytes of a probe; the address 0 is in none.
  ghost predicate Clear(regions: seq<Region>, pc: nat) {
    pc == 0 || forall i | 0 <= i < |regions| && regions[i].id != 0 ::
      pc < regions[i].start || regions[i].start + regions[i].len <= pc
  }

  lemma ClearIfNotInside(regions: seq<Region>, pc: nat)
    ensures Clear(regions, pc) <==> !Inside(regions, pc)
  {
    if Inside(regions, pc) {
      var i :| 0 <= i < |regions| && Covers(regions[i], pc);
    }
  }

  class Tracer {
    const world: World
    var threads: seq<Entry>
    var threadsStopped: bool

    ghost predicate Valid()
      reads this, world
    {
      && world.Valid() && |threads| <= THREADS
      && Truthful(threads, world.tasks, world.seen) && Unique(threads)
    }

    constructor (world: World)
      requires world.Valid()
      ensures Valid() && this.world == world && threads == [] && !threadsStopped
    {
      this.world := world;
      threads, threadsStopped := [], false;
    }

    // Attaches to one task, unless it is in the table or gone.
    method SeizeThread(t: int) returns (answer: Answer)
      requires Valid() && t > 0
      modifies this`threads, world`tasks, world`seen, world`clock, world`failures, world`pending
      ensures Valid() && old(world.seen) <= world.seen
      ensures answer == Done ==> Tracked(threads, t)
      ensures answer == Gone ==> t !in world.tasks
      ensures threads == old(threads) || threads == old(threads) + [Entry(t, false)]
      ensures forall u | u in old(world.seen) && u !in old(world.tasks) :: u !in world.tasks
      ensures !Tracked(old(threads), t) ==>
                var now := Moved(old(world.tasks), old(world.seen), world.moves(old(world.clock)));
                && world.tasks == now && world.clock == old(world.clock) + 1 && world.seen == old(world.seen) + now.Keys
                && (t !in now ==> answer == Gone && threads == old(threads))
      ensures AllStopped(old(world.tasks)) ==> OnlyExits(old(world.tasks), world.tasks)
      ensures Later(old(world.Now()), world.Now())
      ensures Tracked(old(threads), t) ==> answer == Done && threads == old(threads) && world.Now() == old(world.Now())
      ensures answer == Failed ==> threads == old(threads) && (world.failures > old(world.failures) || |threads| == 256)
    {
      if Tracked(threads, t) {
        return Done;
      }
      answer := world.Call(t);
      StaysTruthful(threads, old(world.tasks), old(world.seen), world.tasks);
      if answer == Done {
        if |threads| >= THREADS {
          return Failed;
        }
        threads := threads + [Entry(t, false)];
        assert threads[|threads| - 1].tid == t;
      }
    }

    // Seizes every listed task that is not in the table yet. `listed` is the target at the
    // instant of the listing; `missed` says that a listed task that was running then was
    // gone before its turn.
    method Refresh() returns (ok: bool, ghost listed: Tasks, ghost missed: bool)
      requires Valid()
      modifies this`threads, world
      ensures Valid() && Extends(old(threads), threads)
      ensures Truthful(old(threads), listed, world.seen)
      ensures ok && !missed ==> forall t | t in listed :: Caught(threads, listed, world.tasks, t)
      ensures missed ==> !AllStopped(listed)
      ensures AllStopped(listed) ==> OnlyExits(listed, world.tasks)
      ensures old(threads) == [] && LosesSole(world.moves, old(world.clock), old(world.tasks), old(world.seen)) ==>
                && ok && threads == [] && world.clock == old(world.clock) + 2
                && world.tasks == SoleTasks(world.moves, old(world.clock), old(world.tasks), old(world.seen))
                && world.seen == SoleSeen(world.moves, old(world.clock), old(world.tasks), old(world.seen))
      ensures Later(old(world.Now()), world.Now())
      ensures ok && world.seen == old(world.seen) ==> AllTracked(threads, world.tasks.Keys)
      ensures world.seen == old(world.seen) && AllTracked(old(threads), old(world.tasks.Keys)) ==> ok && !missed && threads == old(threads)
      ensures !ok && world.seen == old(world.seen) ==>
                world.failures > old(world.failures) || Needed(old(threads), old(world.tasks.Keys)) > 256
      ensures world.listings == old(world.listings) + 1
      ensures !ok ==> world.failures > old(world.failures) || |threads| == 256
    {
      hide Evolves;
      hide Truthful;
      hide Caught;
      hide Extends;
      hide Later;
      hide Needed;
      hide Tracked;
      var tids := world.List();
      listed := world.tasks;
      ghost var taken := world.Now();
      StaysTruthful(threads, old(world.tasks), old(world.seen), listed);
      ok, missed := SeizeListed(tids);
      SeenMore(old(threads), listed, old(world.seen) + listed.Keys, world.seen);
      LaterThen(old(world.Now()), taken, world.Now());
      LaterSeen(old(world.Now()), taken, world.Now());
      NobodyNew(old(world.Now()), taken);
      NobodyNew(taken, world.Now());
      if world.seen == old(world.seen) {
        NeededLess(old(threads), tids, old(world.tasks.Keys));
      }
    }

    // Takes the listed tasks in turn.
    method SeizeListed(tids: set<int>) returns (ok: bool, ghost missed: bool)
      requires Valid() && tids == world.tasks.Keys
      modifies this`threads, world`tasks, world`seen, world`clock, world`failures, world`pending
      ensures Valid() && Extends(old(threads), threads) && old(world.seen) <= world.seen
      ensures ok && !missed ==> forall t | t in old(world.tasks) :: Caught(threads, old(world.tasks), world.tasks, t)
      ensures missed ==> !AllStopped(old(world.tasks))
      ensures AllStopped(old(world.tasks)) ==> OnlyExits(old(world.tasks), world.tasks)
      ensures var now := Moved(old(world.tasks), old(world.seen), world.moves(old(world.clock)));
              old(threads) == [] && |tids| == 1 && (forall t | t in tids :: t !in now) ==>
                && ok && threads == [] && world.tasks == now && world.clock == old(world.clock) + 1
                && world.seen == old(world.seen) + now.Keys
      ensures Later(old(world.Now()), world.Now())
      ensures ok ==> forall t | t in tids && t in world.tasks :: Tracked(threads, t)
      ensures AllTracked(old(threads), tids) ==> ok && !missed && threads == old(threads)
      ensures !ok ==> world.failures > old(world.failures) || (Needed(old(threads), tids) > 256 && |threads| == 256)
    {
      hide Seizing;
      hide Evolves;
      hide Truthful;
      hide Tracked;
      hide Moved;
      hide Unique;
      hide AllStopped;
      hide OnlyExits;
      hide Later;
      hide Extends;
      hide Caught;
      hide Needed;
      hide AllTracked;
      ghost var first := world.Now();
      ghost var gone := Moved(world.tasks, world.seen, world.moves(world.clock));
      ghost var loses := threads == [] && |tids| == 1 && forall t | t in tids :: t !in gone;
      missed := false;
      var rest := tids;
      SeizingNone(threads, first, tids);
      while rest != {}
        invariant Valid() && rest <= tids && Seizing(old(threads), first, tids, rest, missed, threads, world.Now())
        invariant loses && rest == tids ==>
                    threads == [] && world.tasks == first.tasks && world.clock == old(world.clock) && world.seen == old(world.seen)
        invariant loses && rest != tids ==>
                    && rest == {} && threads == [] && world.tasks == gone && world.clock == old(world.clock) + 1
                    && world.seen == old(world.seen) + gone.Keys
        decreases |rest|
      {
        Inhabited(rest);
        var t :| t in rest;
        ghost var before, was := threads, world.Now();
        var answer := SeizeThread(t);
        SeizingTurn(old(threads), first, tids, rest, missed, before, was, t, answer, threads, world.Now());
        if loses { SoleTurn(before, t, tids, rest); }
        if answer == Failed {
          return false, missed;
        }
        missed := missed || (answer == Gone && first.tasks[t].mode == Running);
        rest := rest - {t};
      }
      SeizingAll(old(threads), first, tids, missed, threads, world.Now());
      return true, missed;
    }

    // Marks entry i stopped or clears it, once its task has stopped or is gone.
    method WaitForStop(i: nat) returns (ok: bool)
      requires Valid() && i < |threads| && threads[i].tid > 0 && threads[i].tid in world.pending
      modifies this`threads, world`tasks, world`seen, world`clock, world`failures, world`pending
      ensures Valid() && |threads| == |old(threads)| && threads == old(threads)[i := threads[i]]
      ensures ok ==> threads[i] == Cleared || threads[i] == Entry(old(threads[i].tid), true)
      ensures !ok ==> threads == old(threads)
      ensures ok && threads[i] == Cleared ==> old(threads[i].tid) !in world.tasks
      ensures Except(old(world.tasks), old(world.seen), world.tasks, old(threads[i].tid)) && old(world.seen) <= world.seen
      ensures Later(old(world.Now()), world.Now()) && world.stepped == old(world.stepped)
      ensures !ok ==> world.failures > old(world.failures)
      ensures forall t | t in old(world.pending) && t != old(threads[i].tid) :: t in world.pending
    {
      ghost var before, seen := world.tasks, world.seen;
      var answer := world.WaitStop(threads[i].tid);
      HaltedTruthful(threads, before, seen, world.tasks, threads[i].tid);
      hide Evolves;
      if answer == Failed {
        return false;
      }
      threads := threads[i := if answer == Gone then Cleared else Entry(threads[i].tid, true)];
      return true;
    }

    method Compact()
      requires Valid()
      modifies this`threads
      ensures Valid() && threads == Compacted(old(threads))
    {
      var write, read := 0, 0;
      ghost var all := threads;
      while read < |threads|
        invariant write <= read <= |threads| == |all|
        invariant threads[..write] == Compacted(all[..read])
        invariant forall k | read <= k < |all| :: threads[k] == all[k]
      {
        assert all[..read + 1][..read] == all[..read];
        if threads[read].tid > 0 {
          if write != read {
            threads := threads[write := threads[read]];
          }
          write := write + 1;
        }
        read := read + 1;
      }
      assert all[..read] == all;
      threads := threads[..write];
      CompactedLength(all);
      CompactedTruthful(all, world.tasks, world.seen);
      CompactedUnique(all);
    }

    method HasUnstopped() returns (found: bool)
      ensures found <==> exists i :: 0 <= i < |threads| && threads[i].tid > 0 && !threads[i].stopped
    {
      var i := 0;
      while i < |threads|
        invariant i <= |threads|
        invariant forall k | 0 <= k < i :: threads[k].tid <= 0 || threads[k].stopped
      {
        if threads[i].tid > 0 && !threads[i].stopped {
          return true;
        }
        i := i + 1;
      }
      return false;
    }

    /** Asks every thread that is not stopped to stop, then waits for each. Only a failed call
        makes this fail; otherwise all entries are stopped but those of tasks that are gone. */
    method StopPass() returns (ok: bool)
      requires Valid()
      modifies this`threads, world`tasks, world`seen, world`clock, world`failures, world`pending
      ensures Valid() && Later(old(world.Now()), world.Now()) && Follows(old(threads), threads, world.tasks)
      ensures ok ==> forall i | 0 <= i < |threads| && threads[i].tid > 0 :: threads[i].stopped
      ensures !ok ==> world.failures > old(world.failures)
      ensures old(threads) == [] ==>
                ok && threads == [] && world.tasks == old(world.tasks) && world.seen == old(world.seen) && world.clock == old(world.clock)
    {
      hide Later;
      hide Follows;
      hide Truthful;
      hide Recorded;
      TruthfulRecorded(threads, world.tasks, world.seen);
      ok := AskAll();
      if !ok {
        return;
      }
      ghost var asked, middle := threads, world.Now();
      ok := WaitAll();
      FollowsThen(old(threads), old(world.Now()), asked, threads, middle, world.Now());
      LaterThen(old(world.Now()), middle, world.Now());
      LaterSeen(old(world.Now()), middle, world.Now());
    }

    // Interrupts every thread that is not stopped.
    method AskAll() returns (ok: bool)
      requires Valid()
      modifies this`threads, world`tasks, world`seen, world`clock, world`failures, world`pending
      ensures Valid() && Later(old(world.Now()), world.Now()) && Follows(old(threads), threads, world.tasks)
      ensures ok ==> forall i | 0 <= i < |threads| && threads[i].tid > 0 && !threads[i].stopped :: threads[i].tid in world.pending
      ensures !ok ==> world.failures > old(world.failures)
      ensures old(threads) == [] ==>
                ok && threads == [] && world.tasks == old(world.tasks) && world.seen == old(world.seen) && world.clock == old(world.clock)
    {
      hide Later;
      hide Follows;
      hide Evolves;
      hide Recorded;
      LaterSame(world.Now());
      FollowsSame(threads, world.tasks);
      TruthfulRecorded(threads, world.tasks, world.seen);
      var i := 0;
      while i < |threads|
        invariant i <= |threads| && Valid() && Later(old(world.Now()), world.Now()) && Follows(old(threads), threads, world.tasks)
        invariant forall k | 0 <= k < i && threads[k].tid > 0 && !threads[k].stopped :: threads[k].tid in world.pending
        invariant old(threads) == [] ==>
                    threads == [] && world.tasks == old(world.tasks) && world.seen == old(world.seen) && world.clock == old(world.clock)
      {
        if threads[i].tid > 0 && !threads[i].stopped {
          ghost var before, middle := threads, world.Now();
          var answer := world.Interrupt(threads[i].tid);
          StaysTruthful(threads, middle.tasks, middle.seen, world.tasks);
          LaterThen(old(world.Now()), middle, world.Now());
          LaterSeen(old(world.Now()), middle, world.Now());
          FollowsOne(old(threads), old(world.Now()), before, i, threads[i], middle, world.Now());
          assert threads[i := threads[i]] == threads;
          if answer == Gone {
            FollowsOne(old(threads), old(world.Now()), before, i, Cleared, middle, world.Now());
            threads := threads[i := Cleared];
          } else if answer == Failed {
            return false;
          }
        }
        i := i + 1;
      }
      return true;
    }

    // Waits for every thread that is not stopped; all of them were interrupted.
    method WaitAll() returns (ok: bool)
      requires Valid()
      requires forall i | 0 <= i < |threads| && threads[i].tid > 0 && !threads[i].stopped :: threads[i].tid in world.pending
      modifies this`threads, world`tasks, world`seen, world`clock, world`failures, world`pending
      ensures Valid() && Later(old(world.Now()), world.Now()) && Follows(old(threads), threads, world.tasks)
      ensures ok ==> forall i | 0 <= i < |threads| && threads[i].tid > 0 :: threads[i].stopped
      ensures !ok ==> world.failures > old(world.failures)
      ensures old(threads) == [] ==>
                ok && threads == [] && world.tasks == old(world.tasks) && world.seen == old(world.seen) && world.clock == old(world.clock)
    {
      hide Later;
      hide Follows;
      hide Except;
      hide Recorded;
      LaterSame(world.Now());
      FollowsSame(threads, world.tasks);
      TruthfulRecorded(threads, world.tasks, world.seen);
      var i := 0;
      while i < |threads|
        invariant i <= |threads| && Valid() && Later(old(world.Now()), world.Now()) && Follows(old(threads), threads, world.tasks)
        invariant forall k | 0 <= k < i && threads[k].tid > 0 :: threads[k].stopped
        invariant forall k | i <= k < |threads| && threads[k].tid > 0 && !threads[k].stopped :: threads[k].tid in world.pending
        invariant old(threads) == [] ==>
                    threads == [] && world.tasks == old(world.tasks) && world.seen == old(world.seen) && world.clock == old(world.clock)
      {
        if threads[i].tid > 0 && !threads[i].stopped {
          ghost var before, middle := threads, world.Now();
          ok := WaitForStop(i);
          LaterThen(old(world.Now()), middle, world.Now());
          LaterSeen(old(world.Now()), middle, world.Now());
          FollowsOne(old(threads), old(world.Now()), before, i, threads[i], middle, world.Now());
          if !ok {
            return;
          }
        }
        i := i + 1;
      }
      return true;
    }

    /** If this reports success and no task listed as running by the last refresh was gone
        before its turn, which is to say that all were listed as stopped, every live task is
        in the table and stopped. If no call fails, no task starts and the table has room for
        all tasks, it reports success and holds every task. It gives up only if a call fails,
        the table is full, or 17 listings have not been enough. */
    method InterruptAll() returns (ok: bool, ghost missed: bool, ghost listed: Tasks)
      requires Valid()
      modifies this, world
      ensures Valid()
      ensures ok ==> threadsStopped
      ensures ok ==> (!missed <==> AllStopped(listed))
      ensures ok && !missed ==> EveryTaskHeld(threads, world.tasks)
      ensures old(threads) == [] && LosesTwice(world.moves, old(world.clock), old(world.tasks), old(world.seen)) ==>
                ok && threads == [] && world.tasks == TwiceTasks(world.moves, old(world.clock), old(world.tasks), old(world.seen))
      ensures Later(old(world.Now()), world.Now())
      ensures world.failures == old(world.failures) && world.seen == old(world.seen)
              && Needed(old(threads), old(world.tasks.Keys)) <= 256 ==>
                ok && !missed && EveryTaskHeld(threads, world.tasks)
      ensures !ok ==> world.failures > old(world.failures) || |threads| == 256 || world.listings == old(world.listings) + 17
    {
      hide LosesSole;
      hide SoleTasks;
      hide SoleSeen;
      hide Truthful;
      hide Later;
      hide Needed;
      hide AllTracked;
      hide EveryTaskHeld;
      hide AllStopped;
      ghost var loses := threads == [] && LosesTwice(world.moves, world.clock, world.tasks, world.seen);
      ok, listed, missed := Refresh();
      if !ok {
        return;
      }
      var pass := 0;
      ghost var start := old(world.Now());
      while pass < STOP_PASSES
        invariant Valid() && Later(start, world.Now())
        invariant pass <= STOP_PASSES && world.listings == old(world.listings) + 1 + pass
        invariant pass > 0 ==> world.seen != start.seen || world.failures != start.failures
        invariant world.seen == start.seen ==> AllTracked(threads, world.tasks.Keys)
        invariant loses ==>
                    && pass == 0 && threads == [] && world.clock == old(world.clock) + 2
                    && world.tasks == SoleTasks(world.moves, old(world.clock), old(world.tasks), old(world.seen))
                    && world.seen == SoleSeen(world.moves, old(world.clock), old(world.tasks), old(world.seen))
      {
        ghost var refreshed := world.Now();
        var unstopped;
        ok, unstopped, missed, listed := OnePass();
        LaterThen(start, refreshed, world.Now());
        LaterSeen(start, refreshed, world.Now());
        if !ok {
          return;
        }
        if !unstopped {
          threadsStopped := true;
          return;
        }
        pass := pass + 1;
      }
      ok := false;
    }

    // Stops what is known, forgets what is gone, lists the tasks again and looks for one
    // that is not stopped. If all tasks were known and none is new, there is none.
    method OnePass() returns (ok: bool, unstopped: bool, ghost missed: bool, ghost listed: Tasks)
      requires Valid()
      modifies this`threads, world
      ensures Valid() && Later(old(world.Now()), world.Now())
      ensures ok ==> (unstopped <==> exists i :: 0 <= i < |threads| && threads[i].tid > 0 && !threads[i].stopped)
      ensures ok ==> world.listings == old(world.listings) + 1
      ensures !ok ==> world.failures > old(world.failures) || |threads| == 256
      ensures ok && !unstopped ==> (!missed <==> AllStopped(listed)) && (!missed ==> EveryTaskHeld(threads, world.tasks))
      ensures ok && world.seen == old(world.seen) ==> AllTracked(threads, world.tasks.Keys)
      ensures world.seen == old(world.seen) && AllTracked(old(threads), old(world.tasks.Keys)) && world.failures == old(world.failures) ==>
                ok && !unstopped && !missed
      ensures old(threads) == [] && LosesSole(world.moves, old(world.clock), old(world.tasks), old(world.seen)) ==>
                && ok && !unstopped && threads == []
                && world.tasks == SoleTasks(world.moves, old(world.clock), old(world.tasks), old(world.seen))
    {
      hide LosesSole;
      hide SoleTasks;
      hide SoleSeen;
      hide Truthful;
      hide Later;
      hide Follows;
      hide Needed;
      hide AllTracked;
      hide EveryTaskHeld;
      hide Unique;
      hide Extends;
      hide Caught;
      hide AllStopped;
      hide OnlyExits;
      unstopped, missed, listed := false, false, map[];
      ghost var known, start := threads, world.Now();
      ok := StopPass();
      if !ok {
        return;
      }
      ghost var passed, stopped := threads, world.Now();
      Compact();
      ghost var before := threads;
      AllStoppedCompacted(passed);
      if world.seen == start.seen && AllTracked(known, start.tasks.Keys) { TrackedCompacted(known, passed, start, stopped); }
      ok, listed, missed := Refresh();
      LaterThen(start, stopped, world.Now());
      LaterSeen(start, stopped, world.Now());
      if !ok {
        return;
      }
      unstopped := HasUnstopped();
      if !unstopped && !missed {
        NobodyLeftRunning(before, threads, listed, world.tasks, world.seen);
      }
    }

    // One instruction, then stopped again or gone.
    method SingleStepThread(i: nat) returns (ok: bool)
      requires Valid() && i < |threads| && threads[i].tid > 0 && threads[i].stopped
      modifies this`threads, world
      ensures Valid() && |threads| == |old(threads)| && threads == old(threads)[i := threads[i]]
      ensures ok ==> threads[i] == old(threads[i]) || (threads[i] == Cleared && old(threads[i].tid) !in world.tasks)
      ensures Except(old(world.tasks), old(world.seen), world.tasks, old(threads[i].tid)) && old(world.seen) <= world.seen
      ensures Later(old(world.Now()), world.Now()) && (!ok ==> world.failures > old(world.failures))
      ensures ok && threads[i] != Cleared ==> world.stepped == old(world.stepped) + 1
      ensures old(world.stepped) <= world.stepped <= old(world.stepped) + 1
    {
      hide Evolves;
      ghost var tid, before, seen := threads[i].tid, world.tasks, world.seen;
      var answer := world.SingleStep(threads[i].tid);
      ResumedExcept(threads, i, before, seen, world.tasks);
      if answer == Failed {
        StaysTruthful(threads, before, seen, world.tasks);
        return false;
      }
      threads := threads[i := if answer == Gone then Cleared else Entry(threads[i].tid, false)];
      if answer == Done {
        ghost var now, more, stepping := world.tasks, world.seen, world.Now();
        ok := WaitForStop(i);
        ExceptTwice(before, seen, now, more, world.tasks, tid);
        LaterThen(old(world.Now()), stepping, world.Now());
        LaterSeen(old(world.Now()), stepping, world.Now());
        return;
      }
      return true;
    }

    // Reads where the task of entry i is, and steps it once if that is inside a region.
    method StepIfInside(i: nat, regions: seq<Region>) returns (ok: bool, inside: bool)
      requires Valid() && i < |threads| && (threads[i] == Cleared || (threads[i].tid > 0 && threads[i].stopped))
      modifies this`threads, world
      ensures Valid() && |threads| == |old(threads)| && threads == old(threads)[i := threads[i]]
      ensures ok ==> threads[i] == old(threads[i]) || (threads[i] == Cleared && old(threads[i].tid) !in world.tasks)
      ensures Except(old(world.tasks), old(world.seen), world.tasks, old(threads[i].tid)) && old(world.seen) <= world.seen
      ensures Later(old(world.Now()), world.Now()) && (!ok ==> world.failures > old(world.failures))
      ensures ok && !inside && threads[i] != Cleared ==> threads[i].tid in world.tasks && Clear(regions, world.tasks[threads[i].tid].pc)
      ensures ok && inside && threads[i] != Cleared ==> world.stepped == old(world.stepped) + 1
      ensures old(world.stepped) <= world.stepped <= old(world.stepped) + 1
      ensures old(threads[i].tid in world.tasks ==> Clear(regions, world.tasks[threads[i].tid].pc)) ==>
                world.stepped == old(world.stepped) && (ok ==> !inside)
    {
      hide Inside;
      hide Clear;
      ghost var tid, before, seen := threads[i].tid, world.tasks, world.seen;
      ExceptReflexive(before, seen, tid);
      var answer, pc := world.GetPc(threads[i].tid);
      StaysTruthful(threads, before, seen, world.tasks);
      ExceptThen(before, seen, before, seen, world.tasks, tid);
      if answer == Gone {
        threads := threads[i := Cleared];
        return true, false;
      }
      if answer == Failed {
        return false, true;
      }
      ClearIfNotInside(regions, pc);
      if !Inside(regions, pc) {
        return true, false;
      }
      ghost var now, more, looked := world.tasks, world.seen, world.Now();
      StoppedStays(threads, i, before, seen, world.tasks);
      ok := SingleStepThread(i);
      ExceptTwice(before, seen, now, more, world.tasks, tid);
      LaterThen(old(world.Now()), looked, world.Now());
      LaterSeen(old(world.Now()), looked, world.Now());
      return ok, true;
    }

    /** Steps the task of entry i until it is outside all regions, at most eight times. Unless
        a call fails or the task goes away, it fails only if the task is inside after the
        eight steps; a task that is outside is not stepped. */
    method MoveOut(i: nat, regions: seq<Region>) returns (ok: bool)
      requires Valid() && i < |threads| && threads[i].tid > 0 && threads[i].stopped
      modifies this`threads, world
      ensures Valid() && |threads| == |old(threads)| && threads == old(threads)[i := threads[i]]
      ensures ok ==> threads[i] == old(threads[i]) || (threads[i] == Cleared && old(threads[i].tid) !in world.tasks)
      ensures ok && old(threads[i].tid) in world.tasks ==> Clear(regions, world.tasks[old(threads[i].tid)].pc)
      ensures Except(old(world.tasks), old(world.seen), world.tasks, old(threads[i].tid)) && old(world.seen) <= world.seen
      ensures Later(old(world.Now()), world.Now()) && old(world.stepped) <= world.stepped
      ensures !ok ==> StillInside(old(threads[i].tid), old(world.Now()), world.Now(), world.stepped - old(world.stepped), regions)
      ensures old(threads[i].tid in world.tasks ==> Clear(regions, world.tasks[threads[i].tid].pc)) ==> world.stepped == old(world.stepped)
    {
      ghost var tid := threads[i].tid;
      ExceptReflexive(world.tasks, world.seen, tid);
      LaterSame(world.Now());
      hide Evolves;
      hide Except;
      hide Truthful;
      hide Later;
      hide Inside;
      hide Clear;
      hide Unique;
      var steps, inside := 0, true;
      ghost var outside := tid in world.tasks ==> Clear(regions, world.tasks[tid].pc);
      while steps < MAX_SINGLE_STEPS && inside
        invariant Valid() && |threads| == |old(threads)| && threads == old(threads)[i := threads[i]] && steps <= MAX_SINGLE_STEPS
        invariant threads[i] == old(threads[i]) || (threads[i] == Cleared && tid !in world.tasks)
        invariant Except(old(world.tasks), old(world.seen), world.tasks, tid) && old(world.seen) <= world.seen
        invariant Later(old(world.Now()), world.Now()) && old(world.stepped) <= world.stepped
        invariant inside && threads[i] != Cleared ==> world.stepped == old(world.stepped) + steps
        invariant !inside && threads[i] != Cleared ==> tid in world.tasks && Clear(regions, world.tasks[tid].pc)
        invariant steps == 0 ==> world.Now() == old(world.Now()) && threads[i] == old(threads[i])
        invariant outside ==> world.stepped == old(world.stepped) && (steps > 0 ==> !inside)
        decreases MAX_SINGLE_STEPS - steps, inside
      {
        ghost var moment, e := world.Now(), threads[i];
        ok, inside := StepIfInside(i, regions);
        ThenAgain(old(world.Now()), moment, world.Now(), tid, e.tid);
        if !ok {
          return;
        }
        steps := steps + 1;
      }
      ok := true;
      if threads[i].tid > 0 && threads[i].stopped {
        ghost var moment := world.Now();
        ok := IsOutside(i, regions);
        ThenAgain(old(world.Now()), moment, world.Now(), tid, tid);
      }
    }

    // The last look at the task of entry i.
    method IsOutside(i: nat, regions: seq<Region>) returns (ok: bool)
      requires Valid() && i < |threads| && threads[i].tid > 0 && threads[i].stopped
      modifies world
      ensures Valid() && world.stepped == old(world.stepped)
      ensures Except(old(world.tasks), old(world.seen), world.tasks, threads[i].tid) && Later(old(world.Now()), world.Now())
      ensures threads[i].tid in world.tasks ==> threads[i].tid in old(world.tasks) && world.tasks[threads[i].tid] == old(world.tasks)[threads[i].tid]
      ensures ok ==> threads[i].tid in world.tasks && Clear(regions, world.tasks[threads[i].tid].pc)
      ensures !ok ==> world.failures > old(world.failures) || threads[i].tid !in world.tasks || !Clear(regions, world.tasks[threads[i].tid].pc)
    {
      hide Inside;
      hide Clear;
      ExceptReflexive(world.tasks, world.seen, threads[i].tid);
      ghost var moment := world.Now();
      var answer, pc := world.GetPc(threads[i].tid);
      StaysTruthful(threads, moment.tasks, moment.seen, world.tasks);
      StoppedStays(threads, i, moment.tasks, moment.seen, world.tasks);
      ExceptThen(moment.tasks, moment.seen, moment.tasks, moment.seen, world.tasks, threads[i].tid);
      ClearIfNotInside(regions, pc);
      return answer == Done && !Inside(regions, pc);
    }

    /** After a successful check no stopped thread of the table stands inside the bytes of
        any probe; if all tasks were held, this speaks of every task that existed when
        the check began. It fails only if the target is not stopped, a call failed, a thread
        went away, or one was inside after eight steps; if all are outside none is stepped. */
    method EnsurePatchRegionsAreSafe(regions: seq<Region>) returns (ok: bool)
      requires Valid()
      modifies this, world
      ensures Valid() && threadsStopped == old(threadsStopped)
      ensures ok ==> threadsStopped && Outside(threads, |threads|, world.tasks, regions)
      ensures ok && old(EveryTaskHeld(threads, world.tasks)) ==>
                forall t | t in world.tasks && t in old(world.seen) ::
                  world.tasks[t].mode == Stopped && Held(threads, t) && Clear(regions, world.tasks[t].pc)
      ensures !ok && threadsStopped ==>
                exists k :: 0 <= k < |old(threads)| && old(threads[k].tid) > 0 && old(threads[k].stopped)
                            && OneInside(old(threads)[k].tid, old(world.Now()), world.Now(), world.stepped - old(world.stepped), regions)
      ensures old(Outside(threads, |threads|, world.tasks, regions)) ==> world.stepped == old(world.stepped)
    {
      if !threadsStopped {
        return false;
      }
      hide Evolves;
      hide Except;
      hide Truthful;
      hide Unique;
      hide Held;
      hide Clear;
      hide Outside;
      hide OneInside;
      ghost var held, seen0 := EveryTaskHeld(threads, world.tasks), world.seen;
      ghost var calm := Outside(threads, |threads|, world.tasks, regions);
      OutsideNone(threads, world.tasks, regions);
      LaterSame(world.Now());
      hide Later;
      var i := 0;
      while i < |threads|
        invariant i <= |threads| && Valid() && threadsStopped && seen0 <= world.seen
        invariant Outside(threads, i, world.tasks, regions)
        invariant held ==> HeldSince(threads, world.tasks, seen0)
        invariant |threads| == |old(threads)| && forall k | i <= k < |threads| :: threads[k] == old(threads)[k]
        invariant Later(old(world.Now()), world.Now()) && old(world.stepped) <= world.stepped
        invariant calm ==> Outside(threads, |threads|, world.tasks, regions) && world.stepped == old(world.stepped)
      {
        ghost var before, tasks, seen, moment, stepped := threads, world.tasks, world.seen, world.Now(), world.stepped;
        if threads[i].tid > 0 && threads[i].stopped {
          if calm { OutsideAt(threads, i, world.tasks, regions); }
          ok := MoveOut(i, regions);
          LaterThen(old(world.Now()), moment, world.Now());
          if !ok {
            InsideSince(before[i].tid, old(world.Now()), moment, world.Now(), world.stepped - stepped, world.stepped - old(world.stepped), regions);
            return;
          }
          OutsideKept(before, i, i, threads[i], tasks, seen, world.tasks, regions);
          if calm { OutsideKept(before, |before|, i, threads[i], tasks, seen, world.tasks, regions); }
          if held { HeldKept(before, i, threads[i], tasks, seen, world.tasks, seen0); }
        } else {
          OutsideNext(threads, i, world.tasks, regions);
        }
        i := i + 1;
      }
      ghost var all := threads;
      OutsideCompacted(all, world.tasks, regions);
      Compact();
      if held {
        StoppedOutside(all, threads, world.tasks, world.seen, seen0, regions);
      }
      return true;
    }
  }

  // A listed task is in the table, or was stopped and is gone.
  ghost predicate Caught(threads: seq<Entry>, listed: Tasks, tasks: Tasks, t: int) {
    Tracked(threads, t) || (t in listed && listed[t].mode == Stopped && t !in tasks)
  }

  lemma StillCaught(before: seq<Entry>, after: seq<Entry>, listed: Tasks, tasks: Tasks, tasks': Tasks, done: set<int>)
    requires forall t | Tracked(before, t) :: Tracked(after, t)
    requires forall t | t in listed && t !in tasks :: t !in tasks'
    ensures forall t | t in done && Caught(before, listed, tasks, t) :: Caught(after, listed, tasks', t)
  {
    hide Tracked;
  }

  // With an empty table, a listing of one task that is gone at its turn.
  ghost predicate LosesSole(moves: nat -> Tasks, clock: nat, tasks: Tasks, seen: set<int>) {
    var listed := Moved(tasks, seen, moves(clock));
    |listed| == 1 && forall t | t in listed :: t !in SoleTasks(moves, clock, tasks, seen)
  }

  // The target after the listing and one more call.
  ghost function SoleTasks(moves: nat -> Tasks, clock: nat, tasks: Tasks, seen: set<int>): Tasks {
    var listed := Moved(tasks, seen, moves(clock));
    Moved(listed, seen + listed.Keys, moves(clock + 1))
  }

  ghost function SoleSeen(moves: nat -> Tasks, clock: nat, tasks: Tasks, seen: set<int>): set<int> {
    seen + Moved(tasks, seen, moves(clock)).Keys + SoleTasks(moves, clock, tasks, seen).Keys
  }

  // The same twice in a row.
  ghost predicate LosesTwice(moves: nat -> Tasks, clock: nat, tasks: Tasks, seen: set<int>) {
    && LosesSole(moves, clock, tasks, seen)
    && LosesSole(moves, clock + 2, SoleTasks(moves, clock, tasks, seen), SoleSeen(moves, clock, tasks, seen))
  }

  ghost function TwiceTasks(moves: nat -> Tasks, clock: nat, tasks: Tasks, seen: set<int>): Tasks {
    SoleTasks(moves, clock + 2, SoleTasks(moves, clock, tasks, seen), SoleSeen(moves, clock, tasks, seen))
  }

  lemma LaterSame(now: Instant)
    requires forall t | t in now.tasks :: t in now.seen
    ensures Later(now, now)
  {
  }

  lemma LaterSeen(was: Instant, middle: Instant, now: Instant)
    requires Later(was, middle) && Later(middle, now)
    ensures now.seen == was.seen ==> middle.seen == was.seen
    ensures was.failures <= middle.failures <= now.failures
  {
  }

  lemma NeededNone(threads: seq<Entry>, tids: set<int>)
    ensures Needed(threads, tids - tids) == |threads|
  {
  }

  // Between turns: the tasks that had theirs are caught, and tracked while they live.
  ghost predicate Seizing(start: seq<Entry>, first: Instant, tids: set<int>, rest: set<int>, missed: bool, threads: seq<Entry>, now: Instant) {
    && Extends(start, threads) && Later(first, now)
    && (!missed ==> forall t | t in tids && t !in rest :: Caught(threads, first.tasks, now.tasks, t))
    && (missed ==> !AllStopped(first.tasks))
    && (AllStopped(first.tasks) ==> OnlyExits(first.tasks, now.tasks))
    && (forall t | t in tids && t !in rest && t in now.tasks :: Tracked(threads, t))
    && (AllTracked(start, tids) ==> !missed && threads == start)
    && |threads| <= Needed(start, tids - rest)
  }

  lemma SeizingNone(threads: seq<Entry>, first: Instant, tids: set<int>)
    requires forall t | t in first.tasks :: t in first.seen
    ensures Seizing(threads, first, tids, tids, false, threads, first)
  {
    hide Needed;
    NeededNone(threads, tids);
    StillTrackedNone(threads);
    LaterSame(first);
  }

  lemma SeizingAll(start: seq<Entry>, first: Instant, tids: set<int>, missed: bool, threads: seq<Entry>, now: Instant)
    requires Seizing(start, first, tids, {}, missed, threads, now) && tids == first.tasks.Keys
    ensures Extends(start, threads) && Later(first, now) && first.seen <= now.seen
    ensures !missed ==> forall t | t in first.tasks :: Caught(threads, first.tasks, now.tasks, t)
    ensures missed ==> !AllStopped(first.tasks)
    ensures AllStopped(first.tasks) ==> OnlyExits(first.tasks, now.tasks)
    ensures forall t | t in tids && t in now.tasks :: Tracked(threads, t)
    ensures AllTracked(start, tids) ==> !missed && threads == start
  {
    hide Extends;
    hide Caught;
    hide AllStopped;
    hide OnlyExits;
    hide Tracked;
    hide AllTracked;
    hide Needed;
  }

  lemma SeizingTurn(start: seq<Entry>, first: Instant, tids: set<int>, rest: set<int>, missed: bool, before: seq<Entry>, was: Instant,
                    t: int, answer: Answer, after: seq<Entry>, now: Instant)
    requires Seizing(start, first, tids, rest, missed, before, was) && t in rest && rest <= tids && t > 0
    requires tids == first.tasks.Keys && (forall u | u in tids :: u in first.seen) && Later(was, now)
    requires after == before || after == before + [Entry(t, false)]
    requires answer == Done ==> Tracked(after, t)
    requires answer == Gone ==> t !in now.tasks
    requires AllStopped(was.tasks) ==> OnlyExits(was.tasks, now.tasks)
    requires Tracked(before, t) ==> answer == Done && after == before
    requires answer == Failed ==> after == before
    ensures answer != Failed ==>
              Seizing(start, first, tids, rest - {t}, missed || (answer == Gone && first.tasks[t].mode == Running), after, now)
    ensures Extends(start, after) && Later(first, now) && first.seen <= now.seen && first.failures <= was.failures && (missed ==> !AllStopped(first.tasks))
    ensures AllStopped(first.tasks) ==> OnlyExits(first.tasks, now.tasks)
    ensures answer == Failed ==> !AllTracked(start, tids) && Needed(start, tids) > |after|
  {
    hide Needed;
    hide Extends;
    hide Caught;
    hide AllStopped;
    hide OnlyExits;
    hide Tracked;
    NeededTurn(start, tids, rest, t);
    LaterThen(first, was, now);
    StillTracked(start, before, after, t);
    TurnKeeps(before, after, tids, rest, was, now);
    StillCaught(before, after, first.tasks, was.tasks, now.tasks, tids - rest);
    ExitsAddUp(first.tasks, was.tasks, now.tasks);
    if answer == Gone && first.tasks[t].mode == Running {
      OneRuns(first.tasks, t);
    }
    CaughtInTurn(after, first.tasks, now.tasks, t);
  }

  // Tasks that had their turn stay tracked while they live.
  lemma TurnKeeps(before: seq<Entry>, after: seq<Entry>, tids: set<int>, rest: set<int>, was: Instant, now: Instant)
    requires Later(was, now) && (forall u | u in tids :: u in was.seen) && (forall u | Tracked(before, u) :: Tracked(after, u))
    requires forall u | u in tids && u !in rest && u in was.tasks :: Tracked(before, u)
    ensures forall u | u in tids && u !in rest && u in now.tasks :: Tracked(after, u)
  {
  }

  lemma SoleTurn(threads: seq<Entry>, t: int, tids: set<int>, rest: set<int>)
    requires |tids| == 1 && rest <= tids && t in rest
    ensures rest == tids && rest - {t} == {} && (threads == [] ==> !Tracked(threads, t))
  {
    assert |tids - {t}| == 0;
  }

  lemma ExitsNone(tasks: Tasks)
    ensures OnlyExits(tasks, tasks)
  {
  }

  lemma OneRuns(tasks: Tasks, t: int)
    requires t in tasks && tasks[t].mode == Running
    ensures !AllStopped(tasks)
  {
  }

  lemma CaughtInTurn(threads: seq<Entry>, listed: Tasks, tasks: Tasks, t: int)
    requires t in listed
    ensures Tracked(threads, t) || (t !in tasks && listed[t].mode == Stopped) ==> Caught(threads, listed, tasks, t)
  {
  }

  lemma StillTrackedNone(threads: seq<Entry>)
    ensures Extends(threads, threads)
  {
  }

  // Entries were only appended, and those are not stopped.
  ghost predicate Extends(before: seq<Entry>, after: seq<Entry>) {
    && |before| <= |after| && after[..|before|] == before
    && forall i | |before| <= i < |after| :: !after[i].stopped && after[i].tid > 0
  }

  lemma StillTracked(start: seq<Entry>, before: seq<Entry>, after: seq<Entry>, t: int)
    requires Extends(start, before) && t > 0 && (after == before || after == before + [Entry(t, false)])
    ensures Extends(start, after)
    ensures forall u | Tracked(start, u) :: Tracked(before, u)
    ensures forall u | Tracked(before, u) :: Tracked(after, u)
  {
    forall u | Tracked(start, u) ensures Tracked(before, u) {
      var i :| 0 <= i < |start| && start[i].tid == u;
      assert before[..|start|][i] == before[i];
    }
    forall u | Tracked(before, u) ensures Tracked(after, u) {
      var i :| 0 <= i < |before| && before[i].tid == u;
      assert after[i].tid == u;
    }
  }

  lemma SeenMore(threads: seq<Entry>, tasks: Tasks, seen: set<int>, more: set<int>)
    requires Truthful(threads, tasks, seen) && seen <= more
    ensures Truthful(threads, tasks, more)
  {
  }

  lemma ExitsAddUp(first: Tasks, middle: Tasks, last: Tasks)
    requires AllStopped(first) ==> OnlyExits(first, middle)
    requires AllStopped(middle) ==> OnlyExits(middle, last)
    ensures AllStopped(first) ==> OnlyExits(first, last)
  {
  }

  // Nothing but the one task was disturbed: stopped tasks other than tid are as before or
  // gone, and no id was used again.
  ghost predicate Except(before: Tasks, seen: set<int>, after: Tasks, tid: int) {
    && (forall t | t in after && t != tid && t in before && before[t].mode == Stopped :: after[t] == before[t])
    && (forall t | t in after && t !in before :: t !in seen)
    && (forall t | t in before :: t in seen)
  }

  lemma ExceptReflexive(tasks: Tasks, seen: set<int>, tid: int)
    requires forall t | t in tasks :: t in seen
    ensures Except(tasks, seen, tasks, tid)
  {
  }

  lemma ExceptThen(first: Tasks, seen: set<int>, middle: Tasks, more: set<int>, last: Tasks, tid: int)
    requires Except(first, seen, middle, tid) && seen <= more && Evolves(middle, more, last)
    requires forall t | t in middle :: t in more
    ensures Except(first, seen, last, tid)
  {
  }

  // Looking at the task again, or at no task at all once it is gone.
  lemma ThenAgain(first: Instant, middle: Instant, last: Instant, tid: int, tid': int)
    requires Except(first.tasks, first.seen, middle.tasks, tid) && Except(middle.tasks, middle.seen, last.tasks, tid')
    requires (tid' == tid || tid' == 0) && Later(first, middle) && Later(middle, last) && forall t | t in last.tasks :: t > 0
    ensures Except(first.tasks, first.seen, last.tasks, tid) && Later(first, last)
    ensures first.seen <= last.seen && first.failures <= middle.failures <= last.failures
    ensures tid in first.seen && tid !in middle.tasks ==> tid !in last.tasks
  {
  }

  // A stopped entry's task does not move by itself, and does not come back.
  lemma StoppedStays(threads: seq<Entry>, i: nat, before: Tasks, seen: set<int>, after: Tasks)
    requires Truthful(threads, before, seen) && i < |threads| && Evolves(before, seen, after)
    ensures var e := threads[i];
            e.tid > 0 && e.stopped && e.tid in after ==> e.tid in before && after[e.tid] == before[e.tid]
  {
  }

  // Why a thread could not be moved out: a call failed, the thread went away, or it was
  // inside after eight steps.
  ghost predicate StillInside(tid: int, was: Instant, now: Instant, steps: int, regions: seq<Region>) {
    || now.failures > was.failures || tid !in now.tasks
    || (steps == 8 && !Clear(regions, now.tasks[tid].pc))
  }

  lemma ExceptTwice(first: Tasks, seen: set<int>, middle: Tasks, more: set<int>, last: Tasks, tid: int)
    requires Except(first, seen, middle, tid) && seen <= more && Except(middle, more, last, tid)
    ensures Except(first, seen, last, tid)
  {
  }

  lemma HaltedTruthful(threads: seq<Entry>, before: Tasks, seen: set<int>, after: Tasks, tid: int)
    requires Truthful(threads, before, seen) && forall t | t in before :: t in seen
    requires exists mid: Tasks :: Evolves(before, seen, mid) && Halted(mid, after, tid)
    ensures Truthful(threads, after, seen + after.Keys)
    ensures Except(before, seen, after, tid)
  {
    var mid: Tasks :| Evolves(before, seen, mid) && Halted(mid, after, tid);
    StaysTruthful(threads, before, seen, mid);
  }

  // While entry i is being stepped the table does not claim that it is stopped.
  lemma ResumedExcept(threads: seq<Entry>, i: nat, before: Tasks, seen: set<int>, after: Tasks)
    requires Truthful(threads, before, seen) && i < |threads| && (forall t | t in before :: t in seen)
    requires exists mid: Tasks :: Evolves(before, seen, mid) && Resumed(mid, after, threads[i].tid)
    ensures Except(before, seen, after, threads[i].tid)
    ensures forall k | 0 <= k < |threads| && threads[k].tid > 0 ::
              threads[k].tid in seen + after.Keys
              && (threads[k].tid != threads[i].tid && threads[k].stopped && threads[k].tid in after ==> after[threads[k].tid].mode == Stopped)
  {
    var mid: Tasks :| Evolves(before, seen, mid) && Resumed(mid, after, threads[i].tid);
    StaysTruthful(threads, before, seen, mid);
  }

  // Every live task is stopped, and the table says so.
  ghost predicate EveryTaskHeld(threads: seq<Entry>, tasks: Tasks) {
    forall t | t in tasks :: tasks[t].mode == Stopped && Held(threads, t)
  }

  // Entries keep their task, and stay stopped; those cleared were of tasks that are gone.
  ghost predicate Follows(before: seq<Entry>, after: seq<Entry>, tasks: Tasks) {
    |before| == |after| && forall i | 0 <= i < |before| :: EntryFollows(before[i], after[i], tasks)
  }

  ghost predicate EntryFollows(before: Entry, after: Entry, tasks: Tasks) {
    || after == before || (before.tid > 0 && after == Entry(before.tid, true))
    || (after == Cleared && before.tid !in tasks)
  }

  lemma FollowsSame(threads: seq<Entry>, tasks: Tasks)
    ensures Follows(threads, threads, tasks)
  {
  }

  ghost predicate Recorded(threads: seq<Entry>, seen: set<int>) {
    forall k | 0 <= k < |threads| && threads[k].tid > 0 :: threads[k].tid in seen
  }

  lemma TruthfulRecorded(threads: seq<Entry>, tasks: Tasks, seen: set<int>)
    requires Truthful(threads, tasks, seen)
    ensures Recorded(threads, seen)
  {
  }

  lemma FollowsOne(start: seq<Entry>, first: Instant, before: seq<Entry>, i: nat, e: Entry, was: Instant, now: Instant)
    requires Follows(start, before, was.tasks) && i < |before| && Recorded(start, first.seen) && Later(first, was) && Later(was, now)
    requires EntryFollows(before[i], e, now.tasks)
    ensures Follows(start, before[i := e], now.tasks)
  {
  }

  lemma FollowsThen(start: seq<Entry>, first: Instant, before: seq<Entry>, after: seq<Entry>, was: Instant, now: Instant)
    requires Follows(start, before, was.tasks) && Follows(before, after, now.tasks)
    requires Recorded(start, first.seen) && Later(first, was) && Later(was, now)
    ensures Follows(start, after, now.tasks)
  {
  }

  lemma AllStoppedCompacted(threads: seq<Entry>)
    requires forall i | 0 <= i < |threads| && threads[i].tid > 0 :: threads[i].stopped
    ensures forall i | 0 <= i < |Compacted(threads)| :: Compacted(threads)[i].tid > 0 && Compacted(threads)[i].stopped
  {
    forall i | 0 <= i < |Compacted(threads)| ensures Compacted(threads)[i].tid > 0 && Compacted(threads)[i].stopped {
      CompactedKeeps(threads, Compacted(threads)[i]);
    }
  }

  // A pass and compaction lose no live task.
  lemma TrackedCompacted(before: seq<Entry>, after: seq<Entry>, was: Instant, now: Instant)
    requires AllTracked(before, was.tasks.Keys) && Later(was, now) && now.seen == was.seen && Follows(before, after, now.tasks)
    ensures AllTracked(Compacted(after), now.tasks.Keys)
  {
    forall t | t in now.tasks ensures Tracked(Compacted(after), t) {
      assert Tracked(before, t);
      var i :| 0 <= i < |before| && before[i].tid == t;
      assert EntryFollows(before[i], after[i], now.tasks);
      CompactedKeeps(after, after[i]);
      assert after[i] in Compacted(after);
    }
  }

  ghost predicate Held(threads: seq<Entry>, t: int) {
    exists i :: 0 <= i < |threads| && threads[i] == Entry(t, true)
  }

  lemma NobodyLeftRunning(before: seq<Entry>, after: seq<Entry>, listed: Tasks, tasks: Tasks, seen: set<int>)
    requires Extends(before, after) && Truthful(before, listed, seen)
    requires forall i | 0 <= i < |after| :: after[i].tid <= 0 || after[i].stopped
    requires forall t | t in listed :: Caught(after, listed, tasks, t)
    requires AllStopped(listed) ==> OnlyExits(listed, tasks)
    ensures EveryTaskHeld(after, tasks) && AllStopped(listed)
  {
    assert |after| > |before| ==> !after[|before|].stopped && after[|before|].tid > 0;
    forall t | t in listed ensures listed[t].mode == Stopped && (t in tasks ==> Held(after, t)) {
      assert Caught(after, listed, tasks, t);
      if Tracked(after, t) {
        var i :| 0 <= i < |after| && after[i].tid == t;
        assert before[i] == after[i] == Entry(t, true);
      }
    }
  }

  // The stopped tasks of the first n entries are outside all regions.
  ghost predicate Outside(threads: seq<Entry>, n: nat, tasks: Tasks, regions: seq<Region>) {
    n <= |threads| && forall k | 0 <= k < n && threads[k].tid > 0 && threads[k].stopped && threads[k].tid in tasks ::
      Clear(regions, tasks[threads[k].tid].pc)
  }

  lemma OutsideNone(threads: seq<Entry>, tasks: Tasks, regions: seq<Region>)
    ensures Outside(threads, 0, tasks, regions)
  {
  }

  lemma OutsideNext(threads: seq<Entry>, i: nat, tasks: Tasks, regions: seq<Region>)
    requires i < |threads| && Outside(threads, i, tasks, regions) && !(threads[i].tid > 0 && threads[i].stopped)
    ensures Outside(threads, i + 1, tasks, regions)
  {
  }

  lemma OutsideAt(threads: seq<Entry>, i: nat, tasks: Tasks, regions: seq<Region>)
    requires i < |threads| && Outside(threads, |threads|, tasks, regions) && threads[i].tid > 0 && threads[i].stopped
    ensures threads[i].tid in tasks ==> Clear(regions, tasks[threads[i].tid].pc)
  {
  }

  // The same of a whole check: at least eight steps were taken.
  ghost predicate OneInside(tid: int, was: Instant, now: Instant, steps: int, regions: seq<Region>) {
    || now.failures > was.failures || tid !in now.tasks
    || (steps >= 8 && !Clear(regions, now.tasks[tid].pc))
  }

  lemma InsideSince(tid: int, first: Instant, was: Instant, now: Instant, steps: int, all: int, regions: seq<Region>)
    requires Later(first, was) && StillInside(tid, was, now, steps, regions) && steps <= all
    ensures OneInside(tid, first, now, all, regions)
  {
  }

  // Tasks that existed at some point and still do are stopped according to the table.
  ghost predicate HeldSince(threads: seq<Entry>, tasks: Tasks, seen: set<int>) {
    forall t | t in tasks && t in seen :: Held(threads, t)
  }

  lemma OutsideKept(threads: seq<Entry>, n: nat, i: nat, e: Entry, before: Tasks, seen: set<int>, after: Tasks, regions: seq<Region>)
    requires i < |threads| && Outside(threads, n, before, regions) && Truthful(threads, before, seen) && Unique(threads)
    requires threads[i].tid > 0 && Except(before, seen, after, threads[i].tid)
    requires e == threads[i] || e == Cleared
    requires threads[i].tid in after ==> Clear(regions, after[threads[i].tid].pc)
    ensures Outside(threads[i := e], if n == i then n + 1 else n, after, regions)
  {
    hide Clear;
    forall k | 0 <= k < n && k != i && threads[k].tid > 0 && threads[k].stopped && threads[k].tid in after
      ensures Clear(regions, after[threads[k].tid].pc)
    {
      assert threads[k].tid != threads[i].tid;
    }
  }

  lemma HeldKept(threads: seq<Entry>, i: nat, e: Entry, before: Tasks, seen: set<int>, after: Tasks, seen0: set<int>)
    requires i < |threads| && HeldSince(threads, before, seen0) && seen0 <= seen
    requires Except(before, seen, after, threads[i].tid)
    requires e == threads[i] || (e == Cleared && threads[i].tid !in after)
    ensures HeldSince(threads[i := e], after, seen0)
  {
    forall t | t in after && t in seen0 ensures Held(threads[i := e], t) {
      assert Held(threads, t);
      var k :| 0 <= k < |threads| && threads[k] == Entry(t, true);
      assert threads[i := e][k] == Entry(t, true);
    }
  }

  lemma OutsideCompacted(threads: seq<Entry>, tasks: Tasks, regions: seq<Region>)
    requires Outside(threads, |threads|, tasks, regions)
    ensures Outside(Compacted(threads), |Compacted(threads)|, tasks, regions)
  {
    hide Clear;
    forall i | 0 <= i < |Compacted(threads)| ensures Compacted(threads)[i] in threads {
      CompactedKeeps(threads, Compacted(threads)[i]);
    }
  }

  lemma StoppedOutside(all: seq<Entry>, threads: seq<Entry>, tasks: Tasks, seen: set<int>, seen0: set<int>, regions: seq<Region>)
    requires threads == Compacted(all) && HeldSince(all, tasks, seen0) && Truthful(threads, tasks, seen)
    requires Outside(threads, |threads|, tasks, regions) && forall t | t in tasks :: t > 0
    ensures forall t | t in tasks && t in seen0 ::
              tasks[t].mode == Stopped && Held(threads, t) && Clear(regions, tasks[t].pc)
  {
    hide Clear;
    forall t | t in tasks && t in seen0
      ensures tasks[t].mode == Stopped && Held(threads, t) && Clear(regions, tasks[t].pc)
    {
      assert Held(all, t);
      CompactedKeeps(all, Entry(t, true));
      assert Entry(t, true) in threads;
    }
  }

  // One task, which clones and exits between any listing and its turn.
  function Clones(n: nat): Tasks {
    map[n + 1 := Task(Running, 0)]
  }

  function Relay(clock: nat): Tasks {
    Clones((clock + 1) / 2)
  }

  lemma CloneRuns(n: nat, seen: set<int>)
    requires n + 1 in seen && n + 2 !in seen
    ensures Moved(Clones(n), seen, Clones(n)) == Clones(n) && Moved(Clones(n), seen, Clones(n + 1)) == Clones(n + 1)
    ensures |Clones(n)| == 1 && Clones(n).Keys == {n + 1} && n + 1 !in Clones(n + 1)
  {
    assert n + 1 in Clones(n) && Clones(n)[n + 1].mode == Running;
    assert Evolves(Clones(n), seen, Clones(n + 1));
  }

  /** Why the condition on the last refresh is needed: the tracer lists task 1, which clones
      task 2 and exits before its turn, and the same happens to task 2 in the refresh after
      the first pass. The stop reports success with an empty table while task 3 runs. */
  method StopMissesAClone() returns (tracer: Tracer, ok: bool)
    ensures ok && tracer.threadsStopped && tracer.threads == []
    ensures 3 in tracer.world.tasks && tracer.world.tasks[3].mode == Running
  {
    var world := new World(Relay, _ => false, Clones(0));
    tracer := new Tracer(world);
    RelayLosesTwice();
    assert world.seen == {1};
    hide LosesTwice;
    hide TwiceTasks;
    ghost var missed, listed;
    ok, missed, listed := tracer.InterruptAll();
  }

  lemma RelayLosesTwice()
    ensures LosesTwice(Relay, 0, Clones(0), {1}) && TwiceTasks(Relay, 0, Clones(0), {1}) == Clones(2)
  {
    hide LosesSole;
    hide SoleTasks;
    hide SoleSeen;
    RelayLoses(0, {1});
    RelayLoses(1, {1, 2});
    assert {1} + {1, 2} == {1, 2};
  }

  lemma RelayLoses(n: nat, seen: set<int>)
    requires n + 1 in seen && n + 2 !in seen
    ensures LosesSole(Relay, 2 * n, Clones(n), seen)
    ensures SoleTasks(Relay, 2 * n, Clones(n), seen) == Clones(n + 1)
    ensures SoleSeen(Relay, 2 * n, Clones(n), seen) == seen + {n + 1, n + 2}
  {
    hide Moved;
    CloneRuns(n, seen);
    assert Relay(2 * n) == Clones(n) && Relay(2 * n + 1) == Clones(n + 1);
    assert seen + {n + 1} == seen && Clones(n + 1).Keys == {n + 2};
  }
}
